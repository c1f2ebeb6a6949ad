/**
 * The Boltzmann-inversion transform shared by both scripts: each bin value h
 * becomes +inf when h == 0 and `-log(h) * unitfactor` otherwise, while a running
 * minimum `base` is kept. `log` is the natural logarithm of Python's math module;
 * it is passed in as `ln`.
 */
module FreeEnergy {
  import opened Extended
  import opened Grid
  import opened Units

  /** The free energy of one bin. */
  function BinEnergy(h: real, factor: real, ln: real -> real): (e: Ext)
    ensures e.PosInf? <==> h == 0.0
  {
    if h == 0.0 then PosInf else Fin(-ln(h) * factor)
  }

  /** The free energies of a 1-D histogram, bin by bin. */
  function Energies(hist: seq<real>, factor: real, ln: real -> real): (fe: seq<Ext>)
    ensures |fe| == |hist|
    ensures forall i :: 0 <= i < |hist| ==> (fe[i].PosInf? <==> hist[i] == 0.0)
  {
    seq(|hist|, i requires 0 <= i < |hist| => BinEnergy(hist[i], factor, ln))
  }

  /**
   * The printed free energy of bin i, `freeElsit[i] - base`, with `base` the minimum
   * over all bins.
   */
  function RelativeEnergy(hist: seq<real>, factor: real, ln: real -> real, i: nat): (p: Printed)
    requires i < |hist|
    ensures p.Value? ==> (p.e.PosInf? <==> hist[i] == 0.0)
    ensures p.Value? && p.e.Fin? ==> p.e.v >= 0.0
    ensures hist[i] != 0.0 ==> p.Value?
  {
    var fe := Energies(hist, factor, ln);
    MinOfIsMinimum(fe);
    Shift(fe[i], MinOf(fe))
  }

  /**
   * What the printed column means: never negative; +inf exactly for an empty bin;
   * `nan` everywhere exactly when every bin is empty; and exactly 0 at some bin
   * whenever some bin is not empty.
   */
  lemma RelativeEnergyMeaning(hist: seq<real>, factor: real, ln: real -> real)
    ensures forall i :: 0 <= i < |hist| && RelativeEnergy(hist, factor, ln, i).Value? ==>
      var e := RelativeEnergy(hist, factor, ln, i).e;
      (e.PosInf? <==> hist[i] == 0.0) && (e.Fin? ==> e.v >= 0.0)
    ensures forall i :: 0 <= i < |hist| ==>
      (RelativeEnergy(hist, factor, ln, i).NaN? <==> forall k :: 0 <= k < |hist| ==> hist[k] == 0.0)
    ensures (exists k :: 0 <= k < |hist| && hist[k] != 0.0) ==>
      exists i :: 0 <= i < |hist| && RelativeEnergy(hist, factor, ln, i) == Value(Fin(0.0))
  {
    var fe := Energies(hist, factor, ln);
    MinOfIsMinimum(fe);
    assert forall k :: 0 <= k < |fe| ==> (fe[k].PosInf? <==> hist[k] == 0.0);
    if exists k :: 0 <= k < |hist| && hist[k] != 0.0 {
      var i :| 0 <= i < |fe| && fe[i] == MinOf(fe);
      assert RelativeEnergy(hist, factor, ln, i) == Value(Fin(0.0));
    }
  }

  /**
   * The `freeElsit.append(tmpfe)` loop of the 1-D script: one entry per bin and
   * `base` the minimum over all entries (+inf when every bin is empty).
   */
  method EnergyList(hist: seq<real>, factor: real, ln: real -> real) returns (fe: seq<Ext>, base: Ext)
    ensures fe == Energies(hist, factor, ln)
    ensures base == MinOf(fe)
  {
    base := PosInf;
    fe := [];
    for i := 0 to |hist|
      invariant |fe| == i
      invariant forall k :: 0 <= k < i ==> fe[k] == BinEnergy(hist[k], factor, ln)
      invariant base == MinOf(fe)
    {
      var e := BinEnergy(hist[i], factor, ln);
      MinOfSnoc(fe, e);
      if Less(e, base) {
        base := e;
      }
      fe := fe + [e];
    }
    assert |fe| == |Energies(hist, factor, ln)|;
  }

  /** The free energies of a 2-D histogram, entry by entry. */
  function GridEnergies(hist: seq<seq<real>>, factor: real, ln: real -> real): seq<seq<Ext>> {
    seq(|hist|, i requires 0 <= i < |hist| => Energies(hist[i], factor, ln))
  }

  /**
   * The printed free energy of entry (i, j) of a 2-D histogram,
   * `freeElsit[i][j] - base`, with `base` the minimum over the whole grid.
   */
  function RelativeGridEnergy(hist: seq<seq<real>>, ny: nat, factor: real, ln: real -> real, i: nat, j: nat)
    : (p: Printed)
    requires IsRect(hist, ny) && i < |hist| && j < ny
    ensures p.Value? ==> (p.e.PosInf? <==> hist[i][j] == 0.0)
    ensures p.Value? && p.e.Fin? ==> p.e.v >= 0.0
    ensures hist[i][j] != 0.0 ==> p.Value?
  {
    var fe := GridEnergies(hist, factor, ln);
    GridMinimum(fe, ny);
    Shift(fe[i][j], MinOf(Flatten(fe)))
  }

  /**
   * The nested loop of the 2-D script building `freeElsit` row by row from `tmplist`:
   * a grid of the histogram's shape whose `base` is the minimum over both indices,
   * taken in row-major order.
   */
  method EnergyGrid(hist: seq<seq<real>>, ny: nat, factor: real, ln: real -> real)
    returns (fe: seq<seq<Ext>>, base: Ext)
    requires IsRect(hist, ny)
    ensures fe == GridEnergies(hist, factor, ln) && IsRect(fe, ny)
    ensures base == MinOf(Flatten(fe))
    ensures forall i, j :: 0 <= i < |hist| && 0 <= j < ny ==> AtMost(base, fe[i][j])
    ensures base.PosInf? || exists i, j :: 0 <= i < |hist| && 0 <= j < ny && fe[i][j] == base
  {
    base := PosInf;
    fe := [];
    for i := 0 to |hist|
      invariant |fe| == i && IsRect(fe, ny)
      invariant forall k :: 0 <= k < i ==> fe[k] == Energies(hist[k], factor, ln)
      invariant base == MinOf(Flatten(fe))
    {
      var row;
      row, base := EnergyRow(hist[i], factor, ln, base, Flatten(fe));
      FlattenSnoc(fe, row);
      fe := fe + [row];
    }
    assert |fe| == |GridEnergies(hist, factor, ln)|;
    GridMinimum(fe, ny);
  }

  /**
   * The inner loop over `range(len(ybin_mid))`: builds `tmplist` for one x bin while
   * the running minimum continues from the rows already done.
   */
  method EnergyRow(hist: seq<real>, factor: real, ln: real -> real, base0: Ext, ghost done: seq<Ext>)
    returns (row: seq<Ext>, base: Ext)
    requires base0 == MinOf(done)
    ensures row == Energies(hist, factor, ln)
    ensures base == MinOf(done + row)
  {
    base := base0;
    row := [];
    assert done + row == done;
    for j := 0 to |hist|
      invariant |row| == j
      invariant forall l :: 0 <= l < j ==> row[l] == BinEnergy(hist[l], factor, ln)
      invariant base == MinOf(done + row)
    {
      var e := BinEnergy(hist[j], factor, ln);
      MinOfExtendRow(done, row, e);
      if Less(e, base) {
        base := e;
      }
      row := row + [e];
    }
    assert |row| == |Energies(hist, factor, ln)|;
  }

  /** The row-major running minimum of a grid is its minimum over both indices. */
  lemma GridMinimum(fe: seq<seq<Ext>>, ny: nat)
    requires IsRect(fe, ny)
    ensures forall i, j :: 0 <= i < |fe| && 0 <= j < ny ==> AtMost(MinOf(Flatten(fe)), fe[i][j])
    ensures MinOf(Flatten(fe)).PosInf? ||
            exists i, j :: 0 <= i < |fe| && 0 <= j < ny && fe[i][j] == MinOf(Flatten(fe))
  {
    forall i, j | 0 <= i < |fe| && 0 <= j < ny
      ensures AtMost(MinOf(Flatten(fe)), fe[i][j])
    {
      GridEntryAtLeastMinimum(fe, ny, i, j);
    }
    GridMinimumAttained(fe, ny);
  }

  lemma GridEntryAtLeastMinimum(fe: seq<seq<Ext>>, ny: nat, i: nat, j: nat)
    requires IsRect(fe, ny) && i < |fe| && j < ny
    ensures AtMost(MinOf(Flatten(fe)), fe[i][j])
  {
    var k := FlattenPosition(fe, ny, i, j);
    MinOfBelowEntry(Flatten(fe), k);
  }

  lemma GridMinimumAttained(fe: seq<seq<Ext>>, ny: nat)
    requires IsRect(fe, ny)
    ensures MinOf(Flatten(fe)).PosInf? ||
            exists i, j :: 0 <= i < |fe| && 0 <= j < ny && fe[i][j] == MinOf(Flatten(fe))
  {
    var flat := Flatten(fe);
    var base := MinOf(flat);
    MinOfIsMinimum(flat);
    if base.Fin? {
      var k :| 0 <= k < |flat| && flat[k] == base;
      var i, j := FlattenSource(fe, ny, k);
      assert fe[i][j] == base;
    }
  }

  /** Extending the current row by one entry is one more running-minimum step. */
  lemma MinOfExtendRow(done: seq<Ext>, row: seq<Ext>, e: Ext)
    ensures MinOf(done + (row + [e])) == MinStep(MinOf(done + row), e)
  {
    assert done + (row + [e]) == (done + row) + [e];
    MinOfSnoc(done + row, e);
  }

  /**
   * Changing unit by a positive factor c scales every printed relative free energy
   * by c: the minimum moves with the entries, so `fe - base` is linear in the unit.
   */
  lemma {:induction false} ConversionScalesOutput(hist: seq<real>, factor: real, scaled: real, c: real, ln: real -> real, i: nat)
    requires c > 0.0 && scaled == factor * c
    requires i < |hist|
    ensures RelativeEnergy(hist, scaled, ln, i) == ScalePrinted(RelativeEnergy(hist, factor, ln, i), c)
  {
    var fe, fc := Energies(hist, factor, ln), Energies(hist, scaled, ln);
    forall k | 0 <= k < |hist|
      ensures fc[k] == ScaleExt(fe[k], c)
    {
      if hist[k] != 0.0 {
        assert -ln(hist[k]) * scaled == (-ln(hist[k]) * factor) * c;
      }
    }
    MinOfScaled(fe, fc, c);
    MinOfIsMinimum(fe);
    ShiftScaled(fe[i], MinOf(fe), c);
  }

  /** The kcal/mol column is the kBT column times `kB*T`. */
  lemma KcalScalesKbt(hist: seq<real>, temperature: real, ln: real -> real, i: nat)
    requires temperature > 0.0
    requires i < |hist|
    ensures RelativeEnergy(hist, UnitOf(1, temperature).value.factor, ln, i) ==
            ScalePrinted(RelativeEnergy(hist, UnitOf(0, temperature).value.factor, ln, i), KB * temperature)
  {
    var c := KB * temperature;
    assert UnitOf(0, temperature).value.factor == 1.0 && UnitOf(1, temperature).value.factor == c;
    ConversionScalesOutput(hist, 1.0, c, c, ln, i);
  }

  /** The kJ/mol column is the kcal/mol column times 4.184. */
  lemma KjScalesKcal(hist: seq<real>, temperature: real, ln: real -> real, i: nat)
    requires temperature > 0.0
    requires i < |hist|
    ensures RelativeEnergy(hist, UnitOf(2, temperature).value.factor, ln, i) ==
            ScalePrinted(RelativeEnergy(hist, UnitOf(1, temperature).value.factor, ln, i), CAL2J)
  {
    var c := KB * temperature;
    assert UnitOf(1, temperature).value.factor == c && UnitOf(2, temperature).value.factor == c * CAL2J;
    ConversionScalesOutput(hist, c, c * CAL2J, CAL2J, ln, i);
  }

  /** The transform works bin by bin, so it distributes over concatenation. */
  lemma EnergiesConcat(a: seq<real>, b: seq<real>, factor: real, ln: real -> real)
    ensures Energies(a + b, factor, ln) == Energies(a, factor, ln) + Energies(b, factor, ln)
  {
    var lhs := Energies(a + b, factor, ln);
    var rhs := Energies(a, factor, ln) + Energies(b, factor, ln);
    assert |lhs| == |rhs|;
    forall k | 0 <= k < |lhs|
      ensures lhs[k] == rhs[k]
    {
      if k < |a| {
        assert (a + b)[k] == a[k];
      } else {
        assert (a + b)[k] == b[k - |a|];
      }
    }
  }

  /** The grid of energies, read in row-major order, is the energy list of the row-major histogram. */
  lemma {:induction false} FlattenGridEnergies(hist: seq<seq<real>>, factor: real, ln: real -> real)
    ensures Flatten(GridEnergies(hist, factor, ln)) == Energies(Flatten(hist), factor, ln)
  {
    if hist != [] {
      var n := |hist| - 1;
      var fe := GridEnergies(hist, factor, ln);
      assert fe[..n] == GridEnergies(hist[..n], factor, ln);
      FlattenGridEnergies(hist[..n], factor, ln);
      EnergiesConcat(Flatten(hist[..n]), hist[n], factor, ln);
      assert Flatten(fe) == Flatten(fe[..n]) + fe[n];
    }
  }

  /**
   * The 2-D column is the 1-D column of the same bins in row-major order: entry
   * (i, j) prints what bin i*ny + j of the flattened histogram would.
   */
  lemma GridEnergyIsFlatEnergy(hist: seq<seq<real>>, ny: nat, factor: real, ln: real -> real, i: nat, j: nat)
    requires IsRect(hist, ny) && i < |hist| && j < ny
    ensures i * ny + j < |Flatten(hist)|
    ensures RelativeGridEnergy(hist, ny, factor, ln, i, j) == RelativeEnergy(Flatten(hist), factor, ln, i * ny + j)
  {
    var fe := GridEnergies(hist, factor, ln);
    FlattenGridEnergies(hist, factor, ln);
    FlattenIndex(hist, ny, i, j);
    assert IsRect(fe, ny);
    FlattenIndex(fe, ny, i, j);
  }

  /** A grid is all zeros exactly when its row-major order is. */
  lemma GridEmptyIffFlatEmpty(hist: seq<seq<real>>, ny: nat)
    requires IsRect(hist, ny)
    ensures (forall k, l :: 0 <= k < |hist| && 0 <= l < ny ==> hist[k][l] == 0.0) <==>
            (forall m :: 0 <= m < |Flatten(hist)| ==> Flatten(hist)[m] == 0.0)
  {
    var flat := Flatten(hist);
    if forall k, l :: 0 <= k < |hist| && 0 <= l < ny ==> hist[k][l] == 0.0 {
      forall m | 0 <= m < |flat|
        ensures flat[m] == 0.0
      {
        var k, l := FlattenSource(hist, ny, m);
      }
    } else {
      var k, l :| 0 <= k < |hist| && 0 <= l < ny && hist[k][l] != 0.0;
      var m := FlattenPosition(hist, ny, k, l);
      assert flat[m] != 0.0;
    }
  }

  /**
   * What the 2-D column means: never negative; +inf exactly for an empty bin; `nan`
   * exactly when every bin of the grid is empty.
   */
  lemma RelativeGridEnergyMeaning(hist: seq<seq<real>>, ny: nat, factor: real, ln: real -> real, i: nat, j: nat)
    requires IsRect(hist, ny) && i < |hist| && j < ny
    ensures RelativeGridEnergy(hist, ny, factor, ln, i, j).Value? ==>
      var e := RelativeGridEnergy(hist, ny, factor, ln, i, j).e;
      (e.PosInf? <==> hist[i][j] == 0.0) && (e.Fin? ==> e.v >= 0.0)
    ensures RelativeGridEnergy(hist, ny, factor, ln, i, j).NaN? <==>
      forall k, l :: 0 <= k < |hist| && 0 <= l < ny ==> hist[k][l] == 0.0
  {
    var flat := Flatten(hist);
    RelativeEnergyMeaning(flat, factor, ln);
    GridEnergyIsFlatEnergy(hist, ny, factor, ln, i, j);
    FlattenIndex(hist, ny, i, j);
    GridEmptyIffFlatEmpty(hist, ny);
  }

  /** Entry (i, j) prints what the flattened histogram prints at a position `k` holding the same bin. */
  lemma GridEnergyPosition(hist: seq<seq<real>>, ny: nat, factor: real, ln: real -> real, i: nat, j: nat)
    returns (k: nat)
    requires IsRect(hist, ny) && i < |hist| && j < ny
    ensures k < |Flatten(hist)| && Flatten(hist)[k] == hist[i][j]
    ensures RelativeGridEnergy(hist, ny, factor, ln, i, j) == RelativeEnergy(Flatten(hist), factor, ln, k)
  {
    k := FlattenPosition(hist, ny, i, j);
    FlattenGridEnergies(hist, factor, ln);
    assert GridEnergies(hist, factor, ln)[i][j] == Energies(Flatten(hist), factor, ln)[k];
  }

  /** Two bins of equal value print the same relative free energy. */
  lemma SameBinSameEnergy(hist: seq<real>, factor: real, ln: real -> real, a: nat, b: nat)
    requires a < |hist| && b < |hist| && hist[a] == hist[b]
    ensures RelativeEnergy(hist, factor, ln, a) == RelativeEnergy(hist, factor, ln, b)
  {
  }

  /** Whenever some bin of the grid is not empty, some bin prints exactly 0. */
  lemma GridEnergyZeroAttained(hist: seq<seq<real>>, ny: nat, factor: real, ln: real -> real)
    requires IsRect(hist, ny)
    requires exists k, l :: 0 <= k < |hist| && 0 <= l < ny && hist[k][l] != 0.0
    ensures exists k, l :: 0 <= k < |hist| && 0 <= l < ny && RelativeGridEnergy(hist, ny, factor, ln, k, l) == Value(Fin(0.0))
  {
    var flat := Flatten(hist);
    assert exists m :: 0 <= m < |flat| && RelativeEnergy(flat, factor, ln, m) == Value(Fin(0.0)) by {
      GridEmptyIffFlatEmpty(hist, ny);
      RelativeEnergyMeaning(flat, factor, ln);
    }
    var m :| 0 <= m < |flat| && RelativeEnergy(flat, factor, ln, m) == Value(Fin(0.0));
    var k, l := FlattenSource(hist, ny, m);
    var p := GridEnergyPosition(hist, ny, factor, ln, k, l);
    SameBinSameEnergy(flat, factor, ln, p, m);
    assert RelativeGridEnergy(hist, ny, factor, ln, k, l) == Value(Fin(0.0));
  }

  /** The unit factor only rescales the 2-D column as well. */
  lemma GridConversionScalesOutput(hist: seq<seq<real>>, ny: nat, factor: real, scaled: real, c: real,
                                   ln: real -> real, i: nat, j: nat)
    requires c > 0.0 && scaled == factor * c
    requires IsRect(hist, ny) && i < |hist| && j < ny
    ensures RelativeGridEnergy(hist, ny, scaled, ln, i, j) == ScalePrinted(RelativeGridEnergy(hist, ny, factor, ln, i, j), c)
  {
    var flat, k := Flatten(hist), i * ny + j;
    assert k < |flat| && RelativeGridEnergy(hist, ny, factor, ln, i, j) == RelativeEnergy(flat, factor, ln, k) by {
      GridEnergyIsFlatEnergy(hist, ny, factor, ln, i, j);
    }
    assert RelativeGridEnergy(hist, ny, scaled, ln, i, j) == RelativeEnergy(flat, scaled, ln, k) by {
      GridEnergyIsFlatEnergy(hist, ny, scaled, ln, i, j);
    }
    ConversionScalesOutput(flat, factor, scaled, c, ln, k);
  }
}
