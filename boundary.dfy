/**
 * The `--alldata` correction of the 1-D script: samples strictly outside the
 * explicit range [minbin, maxbin] are counted as fractions of the total weight,
 * the in-range density is scaled down by the outside fraction, and one synthetic
 * bin per non-empty side is added one bin width beyond the range.
 */
module Boundary {
  import opened Common

  /** Where a sample falls: the `if x < minbin ... elif x > maxbin` of the sum loop. */
  datatype Side = Below | Inside | Above

  /**
   * A sample is Below exactly when it is `< lo`; for a proper range it is Above
   * exactly when it is `> hi`; a sample equal to either edge is Inside.
   */
  function SideOf(x: real, lo: real, hi: real): (s: Side)
    ensures s == Below <==> x < lo
    ensures s == Above <==> !(x < lo) && x > hi
    ensures lo <= hi ==> (s == Above <==> x > hi)
    ensures s == Inside <==> lo <= x <= hi
  {
    if x < lo then Below else if x > hi then Above else Inside
  }

  /** One weight per sample, as numpy.histogram demands of its `weights`. */
  predicate WeightsMatch(data: seq<real>, weights: Option<seq<real>>) {
    weights.Some? ==> |weights.value| == |data|
  }

  /** `tmpweight`: the sample's weight, or 1.0 when no weight file is given. */
  function SampleWeight(weights: Option<seq<real>>, i: nat): (w: real)
    requires weights.Some? ==> i < |weights.value|
    ensures weights.None? ==> w == 1.0
    ensures NonNegativeWeights(weights) ==> w >= 0.0
  {
    if weights.Some? then weights.value[i] else 1.0
  }

  predicate NonNegativeWeights(weights: Option<seq<real>>) {
    weights.Some? ==> forall i :: 0 <= i < |weights.value| ==> weights.value[i] >= 0.0
  }

  /** Total weight of the first `n` samples that fall on `side`. */
  function MassOn(data: seq<real>, weights: Option<seq<real>>, lo: real, hi: real, side: Side, n: nat): real
    requires WeightsMatch(data, weights) && n <= |data|
  {
    if n == 0 then 0.0
    else MassOn(data, weights, lo, hi, side, n - 1) +
         (if SideOf(data[n - 1], lo, hi) == side then SampleWeight(weights, n - 1) else 0.0)
  }

  /** Total weight of the first `n` samples (`wsum`). */
  function TotalMass(data: seq<real>, weights: Option<seq<real>>, n: nat): real
    requires WeightsMatch(data, weights) && n <= |data|
  {
    if n == 0 then 0.0 else TotalMass(data, weights, n - 1) + SampleWeight(weights, n - 1)
  }

  /** Every sample's weight is counted on exactly one side: the three masses add up to `wsum`. */
  lemma {:induction false} SidesPartitionMass(data: seq<real>, weights: Option<seq<real>>, lo: real, hi: real, n: nat)
    requires WeightsMatch(data, weights) && n <= |data|
    ensures MassOn(data, weights, lo, hi, Below, n) + MassOn(data, weights, lo, hi, Inside, n) +
            MassOn(data, weights, lo, hi, Above, n) == TotalMass(data, weights, n)
  {
    if n > 0 {
      SidesPartitionMass(data, weights, lo, hi, n - 1);
    }
  }

  lemma {:induction false} MassOnNonNegative(data: seq<real>, weights: Option<seq<real>>, lo: real, hi: real, side: Side, n: nat)
    requires WeightsMatch(data, weights) && n <= |data| && NonNegativeWeights(weights)
    ensures MassOn(data, weights, lo, hi, side, n) >= 0.0
  {
    if n > 0 {
      MassOnNonNegative(data, weights, lo, hi, side, n - 1);
    }
  }

  /**
   * With non-negative weights and a positive total, the outside fractions
   * `leftsum` and `rightsum` are non-negative and add up to at most 1.
   */
  lemma FractionsBounded(data: seq<real>, weights: Option<seq<real>>, lo: real, hi: real)
    requires WeightsMatch(data, weights) && NonNegativeWeights(weights)
    requires TotalMass(data, weights, |data|) > 0.0
    ensures var w := TotalMass(data, weights, |data|);
      var l, r := MassOn(data, weights, lo, hi, Below, |data|) / w, MassOn(data, weights, lo, hi, Above, |data|) / w;
      0.0 <= l && 0.0 <= r && l + r <= 1.0
  {
    var n := |data|;
    var w := TotalMass(data, weights, n);
    var below, inside, above := MassOn(data, weights, lo, hi, Below, n), MassOn(data, weights, lo, hi, Inside, n),
                                MassOn(data, weights, lo, hi, Above, n);
    SidesPartitionMass(data, weights, lo, hi, n);
    MassOnNonNegative(data, weights, lo, hi, Below, n);
    MassOnNonNegative(data, weights, lo, hi, Inside, n);
    MassOnNonNegative(data, weights, lo, hi, Above, n);
    FractionPair(below, above, w);
  }

  /** Two non-negative parts of a positive whole give fractions that add up to at most 1. */
  lemma FractionPair(a: real, b: real, w: real)
    requires w > 0.0 && 0.0 <= a && 0.0 <= b && a + b <= w
    ensures 0.0 <= a / w && 0.0 <= b / w && a / w + b / w <= 1.0
  {
    assert a / w + b / w == (a + b) / w;
  }

  /** The sum loop (`wsum`, `leftsum`, `rightsum` before the division). */
  method OutsideSums(data: seq<real>, weights: Option<seq<real>>, lo: real, hi: real)
    returns (leftsum: real, rightsum: real, wsum: real)
    requires WeightsMatch(data, weights)
    ensures leftsum == MassOn(data, weights, lo, hi, Below, |data|)
    ensures rightsum == MassOn(data, weights, lo, hi, Above, |data|)
    ensures wsum == TotalMass(data, weights, |data|)
  {
    leftsum, rightsum, wsum := 0.0, 0.0, 0.0;
    for i := 0 to |data|
      invariant leftsum == MassOn(data, weights, lo, hi, Below, i)
      invariant rightsum == MassOn(data, weights, lo, hi, Above, i)
      invariant wsum == TotalMass(data, weights, i)
    {
      var w := if weights.Some? then weights.value[i] else 1.0;
      wsum := wsum + w;
      if data[i] < lo {
        leftsum := leftsum + w;
      } else if data[i] > hi {
        rightsum := rightsum + w;
      }
    }
  }

  function Sum(s: seq<real>): real {
    if s == [] then 0.0 else s[0] + Sum(s[1..])
  }

  lemma {:induction false} SumConcat(a: seq<real>, b: seq<real>)
    ensures Sum(a + b) == Sum(a) + Sum(b)
  {
    if a == [] {
      assert a + b == b;
    } else {
      assert (a + b)[1..] == a[1..] + b;
      SumConcat(a[1..], b);
    }
  }

  /** Every bin value multiplied by `f` (`hist[i] *= factor`). */
  function Scaled(s: seq<real>, f: real): seq<real> {
    seq(|s|, i requires 0 <= i < |s| => s[i] * f)
  }

  lemma {:induction false} SumScaled(s: seq<real>, f: real)
    ensures Sum(Scaled(s, f)) == Sum(s) * f
  {
    if s != [] {
      var t := Scaled(s, f);
      forall k | 0 <= k < |s| - 1
        ensures t[1..][k] == Scaled(s[1..], f)[k]
      {
        assert t[1..][k] == t[k + 1] == s[k + 1] * f;
      }
      assert t[1..] == Scaled(s[1..], f);
      SumScaled(s[1..], f);
      assert Sum(t) == s[0] * f + Sum(s[1..]) * f;
    }
  }

  /** The two parallel lists printed by the 1-D script: bin centres and bin values. */
  datatype Bins = Bins(mids: seq<real>, hist: seq<real>)

  /**
   * Lines 76-90 given the outside fractions: nothing happens unless `left + right > 0`;
   * otherwise every original value is scaled by `1 - (left + right)` with its centre
   * untouched, and a bin of value `left/binsize` centred one width below the first
   * centre (when `left > 0`) and one of value `right/binsize` centred one width above
   * the last centre (when `right > 0`) are added. A one-bin histogram or a zero bin
   * width makes the script fail.
   */
  function Corrected(b: Bins, left: real, right: real): (r: Result<Bins>)
    requires |b.mids| == |b.hist|
    ensures left + right <= 0.0 ==> r == Ok(b)
    ensures r.Err? <==> left + right > 0.0 && (|b.mids| < 2 || b.mids[1] == b.mids[0])
    ensures r.Err? ==> r.error == (if |b.mids| < 2 then SingleBin else ZeroBinWidth)
    ensures r.Ok? ==> |r.value.mids| == |r.value.hist|
  {
    if left + right <= 0.0 then Ok(b)
    else if |b.mids| < 2 then Err(SingleBin)
    else if b.mids[1] - b.mids[0] == 0.0 then Err(ZeroBinWidth)
    else
      var width := b.mids[1] - b.mids[0];
      var scaled := Scaled(b.hist, 1.0 - (left + right));
      var withLeft :=
        if left > 0.0 then Bins([b.mids[0] - width] + b.mids, [left / width] + scaled)
        else Bins(b.mids, scaled);
      if right > 0.0 then
        Ok(Bins(withLeft.mids + [withLeft.mids[|withLeft.mids| - 1] + width], withLeft.hist + [right / width]))
      else Ok(withLeft)
  }

  /** When the correction runs, the lists grow by exactly one entry per non-empty side. */
  lemma CorrectedGrowth(b: Bins, left: real, right: real, r: Result<Bins>)
    requires |b.mids| == |b.hist|
    requires r == Corrected(b, left, right)
    ensures r.Ok? && left + right > 0.0 ==>
      |r.value.hist| == |b.hist| + (if left > 0.0 then 1 else 0) + (if right > 0.0 then 1 else 0)
  {
  }

  /**
   * When the correction runs, each original value, shifted past a prepended bin, is
   * scaled by `1 - (left + right)` and keeps its centre.
   */
  lemma CorrectedKeepsBins(b: Bins, left: real, right: real, r: Result<Bins>)
    requires |b.mids| == |b.hist|
    requires r == Corrected(b, left, right)
    ensures r.Ok? && left + right > 0.0 ==> var off := if left > 0.0 then 1 else 0;
      forall i :: 0 <= i < |b.hist| ==> r.value.hist[i + off] == b.hist[i] * (1.0 - (left + right))
    ensures r.Ok? && left + right > 0.0 ==> var off := if left > 0.0 then 1 else 0;
      forall i :: 0 <= i < |b.mids| ==> r.value.mids[i + off] == b.mids[i]
  {
  }

  /**
   * When the correction runs, the synthetic bins sit one bin width beyond the first
   * and last centres and carry the outside fraction divided by the width.
   */
  lemma CorrectedSyntheticBins(b: Bins, left: real, right: real, r: Result<Bins>)
    requires |b.mids| == |b.hist|
    requires r == Corrected(b, left, right)
    ensures r.Ok? && left + right > 0.0 && left > 0.0 ==> var width := b.mids[1] - b.mids[0];
      r.value.mids[0] == b.mids[0] - width && r.value.hist[0] == left / width
    ensures r.Ok? && left + right > 0.0 && right > 0.0 ==> var width, last := b.mids[1] - b.mids[0], |r.value.mids| - 1;
      r.value.mids[last] == b.mids[|b.mids| - 1] + width && r.value.hist[last] == right / width
  {
  }

  /**
   * Mass conservation: a density (sum of value times width equal to 1) stays a
   * density once non-negative outside fractions are moved into the synthetic bins.
   */
  lemma CorrectionConservesMass(b: Bins, left: real, right: real)
    requires |b.mids| == |b.hist| >= 2 && b.mids[1] != b.mids[0]
    requires left >= 0.0 && right >= 0.0
    requires Sum(b.hist) * (b.mids[1] - b.mids[0]) == 1.0
    ensures Corrected(b, left, right).Ok?
    ensures Sum(Corrected(b, left, right).value.hist) * (b.mids[1] - b.mids[0]) == 1.0
  {
    if left + right > 0.0 {
      var width := b.mids[1] - b.mids[0];
      var f := 1.0 - (left + right);
      var scaled := Scaled(b.hist, f);
      var h1 := if left > 0.0 then [left / width] + scaled else scaled;
      var hist := Corrected(b, left, right).value.hist;
      assert hist == if right > 0.0 then h1 + [right / width] else h1;
      LeftBinMass(b.hist, left, f, width);
      if right > 0.0 {
        AppendBinMass(h1, right, width);
      }
    }
  }

  /** After scaling and the optional left bin, the integral is `left + f`. */
  lemma LeftBinMass(hist: seq<real>, left: real, f: real, width: real)
    requires width != 0.0 && left >= 0.0
    requires Sum(hist) * width == 1.0
    ensures Sum(if left > 0.0 then [left / width] + Scaled(hist, f) else Scaled(hist, f)) * width == left + f
  {
    ScaledMass(hist, f, width);
    if left > 0.0 {
      AddBinMass(left, Scaled(hist, f), width);
    }
  }

  /** The corrected centres keep the original bin width. */
  lemma CorrectedKeepsWidth(b: Bins, left: real, right: real)
    requires |b.mids| == |b.hist| >= 2
    requires Corrected(b, left, right).Ok?
    ensures var c := Corrected(b, left, right).value;
      |c.mids| >= 2 && c.mids[1] - c.mids[0] == b.mids[1] - b.mids[0]
  {
  }

  /** Scaling every value by `f` scales the integral by `f`. */
  lemma ScaledMass(hist: seq<real>, f: real, width: real)
    requires Sum(hist) * width == 1.0
    ensures Sum(Scaled(hist, f)) * width == f
  {
    SumScaled(hist, f);
    assert Sum(hist) * f * width == Sum(hist) * width * f;
  }

  /** Prepending a bin of value `x / width` adds `x` to the integral. */
  lemma AddBinMass(x: real, rest: seq<real>, width: real)
    requires width != 0.0
    ensures Sum([x / width] + rest) * width == x + Sum(rest) * width
  {
    SumConcat([x / width], rest);
    assert Sum([x / width]) == x / width;
    assert (x / width + Sum(rest)) * width == x / width * width + Sum(rest) * width;
  }

  /** Appending a bin of value `x / width` adds `x` to the integral. */
  lemma AppendBinMass(front: seq<real>, x: real, width: real)
    requires width != 0.0
    ensures Sum(front + [x / width]) * width == Sum(front) * width + x
  {
    SumConcat(front, [x / width]);
    assert Sum([x / width]) == x / width;
    assert (Sum(front) + x / width) * width == Sum(front) * width + x / width * width;
  }

  /**
   * The sums of Histogram.py lines 60-62 start as Python floats and turn into numpy
   * floats only once a weight read from the weight file is added to them. They stay
   * Python floats, whose division by zero raises, without a weight file and also with
   * one but no samples.
   */
  predicate PythonSums(data: seq<real>, weights: Option<seq<real>>) {
    weights.None? || |data| == 0
  }

  /**
   * Histogram.py lines 60-90 as a whole: the weighted outside sums, the division by
   * `wsum`, then the bin update. On Python floats a zero divisor aborts. On numpy
   * floats dividing by zero gives `nan` (0/0) or an infinity instead: a `nan` or
   * `-inf` fraction makes `moresum > 0.0` false, so the bins stay as they are, while
   * two `+inf` fractions, or a zero bin width, let the run go on with infinite values.
   */
  function Correction(data: seq<real>, weights: Option<seq<real>>, lo: real, hi: real, b: Bins): (r: Result<Bins>)
    requires WeightsMatch(data, weights) && |b.mids| == |b.hist|
    ensures r == Err(ZeroTotalWeight) <==> PythonSums(data, weights) && TotalMass(data, weights, |data|) == 0.0
    ensures r == Err(ZeroBinWidth) ==> weights.None?
    ensures r == Err(NonFiniteValues) ==> !PythonSums(data, weights)
    ensures !PythonSums(data, weights) && TotalMass(data, weights, |data|) == 0.0 &&
            !(MassOn(data, weights, lo, hi, Below, |data|) > 0.0 && MassOn(data, weights, lo, hi, Above, |data|) > 0.0)
            ==> r == Ok(b)
    ensures TotalMass(data, weights, |data|) != 0.0 ==>
      var c := Corrected(b, MassOn(data, weights, lo, hi, Below, |data|) / TotalMass(data, weights, |data|),
                            MassOn(data, weights, lo, hi, Above, |data|) / TotalMass(data, weights, |data|));
      (c != Err(ZeroBinWidth) ==> r == c) &&
      (c == Err(ZeroBinWidth) ==> r == if weights.Some? then Err(NonFiniteValues) else Err(ZeroBinWidth))
  {
    var wsum := TotalMass(data, weights, |data|);
    var below, above := MassOn(data, weights, lo, hi, Below, |data|), MassOn(data, weights, lo, hi, Above, |data|);
    if wsum != 0.0 then
      var c := Corrected(b, below / wsum, above / wsum);
      if weights.Some? && c == Err(ZeroBinWidth) then Err(NonFiniteValues) else c
    else if PythonSums(data, weights) then Err(ZeroTotalWeight)
    else if below > 0.0 && above > 0.0 then
      // both fractions are +inf, so `moresum > 0.0` holds and `bin_mid[1]` is read
      if |b.mids| < 2 then Err(SingleBin) else Err(NonFiniteValues)
    else Ok(b)
  }

  /** The in-place implementation of Histogram.py lines 60-90 on the two lists. */
  method CorrectHistogram(data: seq<real>, weights: Option<seq<real>>, lo: real, hi: real, b: Bins)
    returns (r: Result<Bins>)
    requires WeightsMatch(data, weights) && |b.mids| == |b.hist|
    ensures r == Correction(data, weights, lo, hi, b)
  {
    var leftsum, rightsum, wsum := OutsideSums(data, weights, lo, hi);
    if wsum == 0.0 {
      if weights.None? || |data| == 0 {
        return Err(ZeroTotalWeight);
      }
      if leftsum > 0.0 && rightsum > 0.0 {
        if |b.mids| < 2 {
          return Err(SingleBin);
        }
        return Err(NonFiniteValues);
      }
      return Ok(b);
    }
    leftsum := leftsum / wsum;
    rightsum := rightsum / wsum;
    var moresum := leftsum + rightsum;
    var mids, hist := b.mids, b.hist;
    if moresum > 0.0 {
      if |mids| < 2 {
        return Err(SingleBin);
      }
      var binsize := mids[1] - mids[0];
      var factor := 1.0 - moresum;
      for i := 0 to |mids|
        invariant |hist| == |mids| == |b.hist|
        invariant forall k :: 0 <= k < i ==> hist[k] == b.hist[k] * factor
        invariant forall k :: i <= k < |hist| ==> hist[k] == b.hist[k]
      {
        hist := hist[i := hist[i] * factor];
      }
      forall k | 0 <= k < |hist|
        ensures hist[k] == Scaled(b.hist, factor)[k]
      {
      }
      assert hist == Scaled(b.hist, factor);
      if leftsum > 0.0 {
        if binsize == 0.0 {
          return Err(if weights.Some? then NonFiniteValues else ZeroBinWidth);
        }
        mids := [mids[0] - binsize] + mids;
        hist := [leftsum / binsize] + hist;
      }
      if rightsum > 0.0 {
        if binsize == 0.0 {
          return Err(if weights.Some? then NonFiniteValues else ZeroBinWidth);
        }
        mids := mids + [mids[|mids| - 1] + binsize];
        hist := hist + [rightsum / binsize];
      }
    }
    r := Ok(Bins(mids, hist));
  }

  /**
   * With non-negative weights and some weight present, the whole correction keeps a
   * density a density: the extended lists again integrate to 1.
   */
  lemma CorrectionKeepsDensity(data: seq<real>, weights: Option<seq<real>>, lo: real, hi: real, b: Bins)
    requires WeightsMatch(data, weights) && NonNegativeWeights(weights)
    requires TotalMass(data, weights, |data|) > 0.0
    requires |b.mids| == |b.hist| >= 2 && b.mids[1] != b.mids[0]
    requires Sum(b.hist) * (b.mids[1] - b.mids[0]) == 1.0
    ensures Correction(data, weights, lo, hi, b).Ok?
    ensures Sum(Correction(data, weights, lo, hi, b).value.hist) * (b.mids[1] - b.mids[0]) == 1.0
  {
    var w := TotalMass(data, weights, |data|);
    var left, right := MassOn(data, weights, lo, hi, Below, |data|) / w, MassOn(data, weights, lo, hi, Above, |data|) / w;
    assert left >= 0.0 && right >= 0.0 by {
      FractionsBounded(data, weights, lo, hi);
    }
    CorrectionConservesMass(b, left, right);
    assert Correction(data, weights, lo, hi, b) == Corrected(b, left, right);
  }
}
