/**
 * The 1-D script (Histogram.py) after numpy has binned the samples: bin centres,
 * the optional `--alldata` boundary correction, the optional free-energy column,
 * and the printed rows. numpy's `hist` and `bin_edges` arrive as inputs.
 */
module Histogram1D {
  import opened Common
  import opened Extended
  import opened Midpoints
  import opened Units
  import opened FreeEnergy
  import opened Boundary

  /** The command-line options the core reads. */
  datatype Options = Options(
    minbin: Option<real>, maxbin: Option<real>,
    freeE: bool, unit: int, temperature: real, allData: bool)

  /** One printed line: centre, value and, with `--freeE`, the relative free energy. */
  datatype Row = Row(mid: real, value: real, energy: Option<Printed>)

  /** The free-energy list and its minimum. */
  datatype FreeEnergies = FreeEnergies(fe: seq<Ext>, base: Ext)

  /**
   * `datarange`: absent when neither bound is given, the pair of bounds when both
   * are. numpy rejects a range with a missing end, and one whose minimum exceeds its
   * maximum, before any bin is printed.
   */
  function DataRange(minbin: Option<real>, maxbin: Option<real>): (r: Result<Option<(real, real)>>)
    ensures r == Ok(None) <==> minbin.None? && maxbin.None?
    ensures r == Err(IncompleteRange) <==> minbin.None? != maxbin.None?
    ensures r == Err(InvertedRange) <==> minbin.Some? && maxbin.Some? && minbin.value > maxbin.value
    ensures r.Ok? && r.value.Some? ==>
      r.value.value == (minbin.value, maxbin.value) && r.value.value.0 <= r.value.value.1
    ensures minbin.Some? && maxbin.Some? && minbin.value <= maxbin.value ==>
      r == Ok(Some((minbin.value, maxbin.value)))
  {
    if minbin.None? && maxbin.None? then Ok(None)
    else if minbin.Some? && maxbin.Some? then
      if minbin.value > maxbin.value then Err(InvertedRange) else Ok(Some((minbin.value, maxbin.value)))
    else Err(IncompleteRange)
  }

  /** The correction of Histogram.py line 59 runs: `--alldata` with an explicit range. */
  predicate Corrects(opts: Options) {
    opts.allData && opts.minbin.Some? && opts.maxbin.Some?
  }

  /** What the correction yields on numpy's centres and values when it runs. */
  function CorrectionOf(opts: Options, data: seq<real>, weights: Option<seq<real>>, hist: seq<real>, edges: seq<real>)
    : Result<Bins>
    requires Corrects(opts) && WeightsMatch(data, weights) && |edges| == |hist| + 1
  {
    Correction(data, weights, opts.minbin.value, opts.maxbin.value, Bins(Centres(edges), hist))
  }

  function MidsOf(rows: seq<Row>): seq<real> {
    seq(|rows|, i requires 0 <= i < |rows| => rows[i].mid)
  }

  function ValuesOf(rows: seq<Row>): seq<real> {
    seq(|rows|, i requires 0 <= i < |rows| => rows[i].value)
  }

  /** The printing loop: one row per centre, carrying `freeElsit[i] - base` with `--freeE`. */
  method Rows(mids: seq<real>, hist: seq<real>, energies: Option<FreeEnergies>) returns (rows: seq<Row>)
    requires |hist| == |mids|
    requires energies.Some? ==> |energies.value.fe| == |mids|
    requires energies.Some? ==> forall i :: 0 <= i < |mids| ==> AtMost(energies.value.base, energies.value.fe[i])
    ensures MidsOf(rows) == mids && ValuesOf(rows) == hist
    ensures forall i :: 0 <= i < |rows| ==>
      rows[i].energy == (if energies.Some? then Some(Shift(energies.value.fe[i], energies.value.base)) else None)
  {
    rows := [];
    for i := 0 to |mids|
      invariant |rows| == i
      invariant forall k :: 0 <= k < i ==> rows[k].mid == mids[k] && rows[k].value == hist[k]
      invariant forall k :: 0 <= k < i ==>
        rows[k].energy == (if energies.Some? then Some(Shift(energies.value.fe[k], energies.value.base)) else None)
    {
      var energy := None;
      if energies.Some? {
        energy := Some(Shift(energies.value.fe[i], energies.value.base));
      }
      rows := rows + [Row(mids[i], hist[i], energy)];
    }
    assert |MidsOf(rows)| == |mids| && |ValuesOf(rows)| == |hist|;
  }

  /**
   * One run of the script on numpy's output. Without `--alldata` and an explicit
   * range the rows are numpy's centres and values unchanged; with them the values are
   * the boundary-corrected ones; with `--freeE` every row carries the relative free
   * energy of its value, and an unknown unit aborts.
   */
  method Run(opts: Options, data: seq<real>, weights: Option<seq<real>>,
             hist: seq<real>, edges: seq<real>, ln: real -> real)
    returns (r: Result<seq<Row>>)
    requires |edges| == |hist| + 1
    requires WeightsMatch(data, weights)
    ensures DataRange(opts.minbin, opts.maxbin).Err? ==> r == Err(DataRange(opts.minbin, opts.maxbin).error)
    ensures r.Err? <==>
      DataRange(opts.minbin, opts.maxbin).Err? ||
      (Corrects(opts) && CorrectionOf(opts, data, weights, hist, edges).Err?) ||
      (opts.freeE && !(0 <= opts.unit <= 2))
    ensures DataRange(opts.minbin, opts.maxbin).Ok? && Corrects(opts) && CorrectionOf(opts, data, weights, hist, edges).Err? ==>
      r == Err(CorrectionOf(opts, data, weights, hist, edges).error)
    ensures DataRange(opts.minbin, opts.maxbin).Ok? &&
            !(Corrects(opts) && CorrectionOf(opts, data, weights, hist, edges).Err?) &&
            opts.freeE && !(0 <= opts.unit <= 2) ==>
      r == Err(UndefinedUnit)
    ensures r.Ok? && !Corrects(opts) ==>
      MidsOf(r.value) == Centres(edges) && ValuesOf(r.value) == hist
    ensures r.Ok? && Corrects(opts) ==>
      CorrectionOf(opts, data, weights, hist, edges) == Ok(Bins(MidsOf(r.value), ValuesOf(r.value)))
    ensures r.Ok? && !opts.freeE ==> forall i :: 0 <= i < |r.value| ==> r.value[i].energy.None?
    ensures r.Ok? && opts.freeE ==>
      UnitOf(opts.unit, opts.temperature).Ok? &&
      forall i :: 0 <= i < |r.value| ==>
        r.value[i].energy ==
        Some(RelativeEnergy(ValuesOf(r.value), UnitOf(opts.unit, opts.temperature).value.factor, ln, i))
  {
    var range := DataRange(opts.minbin, opts.maxbin);
    if range.Err? {
      return Err(range.error);
    }
    var mids := BinMidpoints(edges);
    var values := hist;
    if opts.allData && range.value.Some? {
      var corrected := CorrectHistogram(data, weights, range.value.value.0, range.value.value.1, Bins(mids, hist));
      if corrected.Err? {
        return Err(corrected.error);
      }
      mids, values := corrected.value.mids, corrected.value.hist;
    }
    var energies := None;
    if opts.freeE {
      var unit := UnitOf(opts.unit, opts.temperature);
      if unit.Err? {
        return Err(unit.error);
      }
      var fe, base := EnergyList(values, unit.value.factor, ln);
      MinOfIsMinimum(fe);
      energies := Some(FreeEnergies(fe, base));
    }
    var rows := Rows(mids, values, energies);
    r := Ok(rows);
  }
}
