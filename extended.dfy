/**
 * Python floats as they arise in the free-energy transform: finite values and
 * +inf (`numpy.inf`, and the literal `1.0e1000`, which overflows to +inf).
 */
module Extended {

  datatype Ext = Fin(v: real) | PosInf

  /** Python's `a < b` on finite values and +inf. */
  predicate Less(a: Ext, b: Ext) {
    match a
    case PosInf => false
    case Fin(x) => b.PosInf? || x < b.v
  }

  predicate AtMost(a: Ext, b: Ext) {
    !Less(b, a)
  }

  /** One step of the running minimum: `if tmpfe < base: base = tmpfe`. */
  function MinStep(base: Ext, x: Ext): (m: Ext)
    ensures AtMost(m, base) && AtMost(m, x)
    ensures m == base || m == x
  {
    if Less(x, base) then x else base
  }

  /**
   * The value of a running minimum that starts at +inf (`base = 1.0e1000`)
   * after scanning `s` from left to right.
   */
  function MinOf(s: seq<Ext>): (m: Ext)
    ensures m.PosInf? || m in s
  {
    if s == [] then PosInf else MinStep(MinOf(s[..|s| - 1]), s[|s| - 1])
  }

  /**
   * The running minimum is at most every entry, equals some entry unless it is
   * +inf, and stays +inf exactly when every entry is +inf.
   */
  lemma {:induction false} MinOfIsMinimum(s: seq<Ext>)
    ensures forall k :: 0 <= k < |s| ==> AtMost(MinOf(s), s[k])
    ensures MinOf(s).PosInf? || exists k :: 0 <= k < |s| && s[k] == MinOf(s)
    ensures MinOf(s).PosInf? <==> forall k :: 0 <= k < |s| ==> s[k].PosInf?
  {
    if s != [] {
      var n := |s| - 1;
      var front := s[..n];
      MinOfIsMinimum(front);
      assert forall k :: 0 <= k < n ==> s[k] == front[k];
    }
  }

  /** The minimum is at most any one given entry. */
  lemma MinOfBelowEntry(s: seq<Ext>, k: nat)
    requires k < |s|
    ensures AtMost(MinOf(s), s[k])
  {
    MinOfIsMinimum(s);
  }

  /** Appending one entry to the scanned sequence is one more running-minimum step. */
  lemma MinOfSnoc(s: seq<Ext>, x: Ext)
    ensures MinOf(s + [x]) == MinStep(MinOf(s), x)
  {
    assert (s + [x])[..|s|] == s;
  }

  /** A printed free-energy column: a value, or `nan` from `inf - inf`. */
  datatype Printed = Value(e: Ext) | NaN

  /**
   * Python's `fe - base` where `base` is at most `fe` (it is the running minimum):
   * never negative, +inf exactly for empty bins, `nan` exactly when the minimum is +inf,
   * and 0 at a bin that attains a finite minimum.
   */
  function Shift(fe: Ext, base: Ext): (p: Printed)
    requires AtMost(base, fe)
    ensures p.NaN? <==> base.PosInf?
    ensures p.Value? ==> (p.e.PosInf? <==> fe.PosInf?)
    ensures p.Value? && p.e.Fin? ==> p.e.v >= 0.0
    ensures fe == base && base.Fin? ==> p == Value(Fin(0.0))
  {
    match base
    case PosInf => NaN
    case Fin(b) =>
      match fe
      case PosInf => Value(PosInf)
      case Fin(x) => Value(Fin(x - b))
  }

  /** Multiplying by a conversion factor; +inf stays +inf. */
  function ScaleExt(e: Ext, c: real): Ext {
    match e
    case PosInf => PosInf
    case Fin(x) => Fin(x * c)
  }

  function ScalePrinted(p: Printed, c: real): Printed {
    match p
    case NaN => NaN
    case Value(e) => Value(ScaleExt(e, c))
  }

  /** A positive factor preserves the order of Python's `<`. */
  lemma LessScaled(a: Ext, b: Ext, c: real)
    requires c > 0.0
    ensures Less(ScaleExt(a, c), ScaleExt(b, c)) <==> Less(a, b)
  {
    if a.Fin? && b.Fin? {
      if a.v < b.v {
        assert a.v * c < b.v * c;
      } else {
        assert a.v * c >= b.v * c;
      }
    }
  }

  /** Scaling every entry by a positive factor scales the running minimum by it. */
  lemma {:induction false} MinOfScaled(s: seq<Ext>, t: seq<Ext>, c: real)
    requires c > 0.0
    requires |s| == |t|
    requires forall i :: 0 <= i < |s| ==> t[i] == ScaleExt(s[i], c)
    ensures MinOf(t) == ScaleExt(MinOf(s), c)
  {
    if s != [] {
      var n := |s| - 1;
      MinOfScaled(s[..n], t[..n], c);
      LessScaled(s[n], MinOf(s[..n]), c);
    }
  }

  /** Converting both the entry and the minimum by a positive factor converts the printed difference. */
  lemma ShiftScaled(fe: Ext, base: Ext, c: real)
    requires c > 0.0
    requires AtMost(base, fe)
    ensures AtMost(ScaleExt(base, c), ScaleExt(fe, c))
    ensures Shift(ScaleExt(fe, c), ScaleExt(base, c)) == ScalePrinted(Shift(fe, base), c)
  {
    LessScaled(fe, base, c);
    if fe.Fin? && base.Fin? {
      assert fe.v * c - base.v * c == (fe.v - base.v) * c;
    }
  }
}
