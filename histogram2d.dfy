/**
 * The 2-D script (2DHistogram.py) after numpy has binned the sample pairs: the
 * range-pair assembly, x and y bin centres, the optional free-energy grid, and the
 * printed rows, one block per x bin (blocks are separated by a blank line).
 * numpy's `hist`, `xedges` and `yedges` arrive as inputs.
 */
module Histogram2D {
  import opened Common
  import opened Extended
  import opened Grid
  import opened Midpoints
  import opened Units
  import opened FreeEnergy

  /** The command-line options the core reads; `--minmid`/`--maxmid` already split into x,y pairs. */
  datatype Options = Options(
    minmid: Option<(real, real)>, maxmid: Option<(real, real)>,
    freeE: bool, unit: int, temperature: real)

  /** One printed line: x centre, y centre, value and, with `--freeE`, the relative free energy. */
  datatype Row = Row(x: real, y: real, value: real, energy: Option<Printed>)

  /** The free-energy grid and the base subtracted from it. */
  datatype FreeEnergies = FreeEnergies(fe: seq<seq<Ext>>, base: Ext)

  /**
   * `xyrange`: absent when neither option is given, `[[xmin, xmax], [ymin, ymax]]`
   * when both are. A single option makes the run fail (the other one is None and
   * cannot be split), and numpy rejects a range whose minimum exceeds its maximum on
   * either axis.
   */
  function XYRange(minmid: Option<(real, real)>, maxmid: Option<(real, real)>)
    : (r: Result<Option<((real, real), (real, real))>>)
    ensures r == Ok(None) <==> minmid.None? && maxmid.None?
    ensures r == Err(IncompleteRange) <==> minmid.None? != maxmid.None?
    ensures r == Err(InvertedRange) <==>
      minmid.Some? && maxmid.Some? && (minmid.value.0 > maxmid.value.0 || minmid.value.1 > maxmid.value.1)
    ensures r.Ok? && r.value.Some? ==>
      r.value.value == ((minmid.value.0, maxmid.value.0), (minmid.value.1, maxmid.value.1))
    ensures minmid.Some? && maxmid.Some? && minmid.value.0 <= maxmid.value.0 && minmid.value.1 <= maxmid.value.1 ==>
      r == Ok(Some(((minmid.value.0, maxmid.value.0), (minmid.value.1, maxmid.value.1))))
  {
    if minmid.None? && maxmid.None? then Ok(None)
    else if minmid.Some? && maxmid.Some? then
      var (xmin, ymin) := minmid.value;
      var (xmax, ymax) := maxmid.value;
      if xmin > xmax || ymin > ymax then Err(InvertedRange)
      else Ok(Some(((xmin, xmax), (ymin, ymax))))
    else Err(IncompleteRange)
  }

  /** An energy grid of `nx` by `ny` entries none of which lies below its base. */
  predicate Fits(energies: Option<FreeEnergies>, nx: nat, ny: nat) {
    energies.Some? ==>
      |energies.value.fe| == nx && IsRect(energies.value.fe, ny) &&
      forall i, j :: 0 <= i < nx && 0 <= j < ny ==> AtMost(energies.value.base, energies.value.fe[i][j])
  }

  /** The energy column of entry (i, j): `freeElsit[i][j] - base` with `--freeE`, nothing without. */
  function CellEnergy(energies: Option<FreeEnergies>, nx: nat, ny: nat, i: nat, j: nat): Option<Printed>
    requires Fits(energies, nx, ny) && i < nx && j < ny
  {
    if energies.Some? then Some(Shift(energies.value.fe[i][j], energies.value.base)) else None
  }

  /** The printed table: block i holds one row per y centre for x centre i. */
  function Table(xmids: seq<real>, ymids: seq<real>, hist: seq<seq<real>>, energies: Option<FreeEnergies>)
    : seq<seq<Row>>
    requires |hist| == |xmids| && IsRect(hist, |ymids|) && Fits(energies, |xmids|, |ymids|)
  {
    seq(|xmids|, i requires 0 <= i < |xmids| =>
      seq(|ymids|, j requires 0 <= j < |ymids| =>
        Row(xmids[i], ymids[j], hist[i][j], CellEnergy(energies, |xmids|, |ymids|, i, j))))
  }

  /** The grid energies of a histogram with their minimum over both indices as base. */
  function GridFreeEnergies(hist: seq<seq<real>>, ny: nat, factor: real, ln: real -> real): (r: FreeEnergies)
    requires IsRect(hist, ny)
    ensures Fits(Some(r), |hist|, ny)
  {
    var fe := GridEnergies(hist, factor, ln);
    GridMinimum(fe, ny);
    FreeEnergies(fe, MinOf(Flatten(fe)))
  }

  /**
   * With the grid minimum as base, the energy column of entry (i, j) is the relative
   * free energy of that bin.
   */
  lemma TableEnergies(xmids: seq<real>, ymids: seq<real>, hist: seq<seq<real>>, factor: real, ln: real -> real,
                      i: nat, j: nat)
    requires |hist| == |xmids| && IsRect(hist, |ymids|)
    requires i < |xmids| && j < |ymids|
    ensures Table(xmids, ymids, hist, Some(GridFreeEnergies(hist, |ymids|, factor, ln)))[i][j] ==
      Row(xmids[i], ymids[j], hist[i][j], Some(RelativeGridEnergy(hist, |ymids|, factor, ln, i, j)))
  {
  }

  /**
   * The rows come out x outer, y inner: line k of the output (blank lines aside) is
   * entry (k / ny, k % ny) of the table.
   */
  lemma PrintOrder(xmids: seq<real>, ymids: seq<real>, hist: seq<seq<real>>, energies: Option<FreeEnergies>,
                   i: nat, j: nat)
    requires |hist| == |xmids| && IsRect(hist, |ymids|) && Fits(energies, |xmids|, |ymids|)
    requires i < |xmids| && j < |ymids|
    ensures |Flatten(Table(xmids, ymids, hist, energies))| == |xmids| * |ymids|
    ensures i * |ymids| + j < |Flatten(Table(xmids, ymids, hist, energies))|
    ensures Flatten(Table(xmids, ymids, hist, energies))[i * |ymids| + j] ==
      Row(xmids[i], ymids[j], hist[i][j], CellEnergy(energies, |xmids|, |ymids|, i, j))
  {
    var t := Table(xmids, ymids, hist, energies);
    assert IsRect(t, |ymids|);
    FlattenLength(t, |ymids|);
    FlattenIndex(t, |ymids|, i, j);
  }

  /** The printing loops, x outer and y inner. */
  method Rows(xmids: seq<real>, ymids: seq<real>, hist: seq<seq<real>>, energies: Option<FreeEnergies>)
    returns (blocks: seq<seq<Row>>)
    requires |hist| == |xmids| && IsRect(hist, |ymids|) && Fits(energies, |xmids|, |ymids|)
    ensures blocks == Table(xmids, ymids, hist, energies)
  {
    blocks := [];
    for i := 0 to |xmids|
      invariant |blocks| == i && IsRect(blocks, |ymids|)
      invariant forall k, l :: 0 <= k < i && 0 <= l < |ymids| ==>
        blocks[k][l] == Row(xmids[k], ymids[l], hist[k][l], CellEnergy(energies, |xmids|, |ymids|, k, l))
    {
      var block := [];
      for j := 0 to |ymids|
        invariant |block| == j
        invariant forall l :: 0 <= l < j ==>
          block[l] == Row(xmids[i], ymids[l], hist[i][l], CellEnergy(energies, |xmids|, |ymids|, i, l))
      {
        var energy := None;
        if energies.Some? {
          energy := Some(Shift(energies.value.fe[i][j], energies.value.base));
        }
        block := block + [Row(xmids[i], ymids[j], hist[i][j], energy)];
      }
      blocks := blocks + [block];
    }
    var t := Table(xmids, ymids, hist, energies);
    assert |blocks| == |t|;
    forall k | 0 <= k < |blocks|
      ensures blocks[k] == t[k]
    {
      assert |blocks[k]| == |t[k]|;
    }
  }

  /**
   * One run of the script on numpy's output: the table of centres, values and, with
   * `--freeE`, the free energies relative to the grid minimum in the chosen unit.
   */
  method Run(opts: Options, hist: seq<seq<real>>, xedges: seq<real>, yedges: seq<real>, ln: real -> real)
    returns (r: Result<seq<seq<Row>>>)
    requires |xedges| == |hist| + 1 && |yedges| >= 1 && IsRect(hist, |yedges| - 1)
    ensures XYRange(opts.minmid, opts.maxmid).Err? ==> r == Err(XYRange(opts.minmid, opts.maxmid).error)
    ensures XYRange(opts.minmid, opts.maxmid).Ok? && opts.freeE && !(0 <= opts.unit <= 2) ==>
      r == Err(UndefinedUnit)
    ensures r.Err? ==> XYRange(opts.minmid, opts.maxmid).Err? || (opts.freeE && !(0 <= opts.unit <= 2))
    ensures r.Ok? && !opts.freeE ==> r.value == Table(Centres(xedges), Centres(yedges), hist, None)
    ensures r.Ok? && opts.freeE ==>
      (UnitOf(opts.unit, opts.temperature).Ok? &&
       r.value == Table(Centres(xedges), Centres(yedges), hist,
         Some(GridFreeEnergies(hist, |yedges| - 1, UnitOf(opts.unit, opts.temperature).value.factor, ln))))
  {
    var range := XYRange(opts.minmid, opts.maxmid);
    if range.Err? {
      return Err(range.error);
    }
    var xmids := BinMidpoints(xedges);
    var ymids := BinMidpoints(yedges);
    var energies := None;
    if opts.freeE {
      var unit := UnitOf(opts.unit, opts.temperature);
      if unit.Err? {
        return Err(unit.error);
      }
      var fe, base := EnergyGrid(hist, |ymids|, unit.value.factor, ln);
      energies := Some(FreeEnergies(fe, base));
    }
    var blocks := Rows(xmids, ymids, hist, energies);
    r := Ok(blocks);
  }
}
