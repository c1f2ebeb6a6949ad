/** Bin centres from numpy's bin edges (both scripts). */
module Midpoints {

  /** The bin centres as one value: entry i is the average of edges i and i+1. */
  function Centres(edges: seq<real>): seq<real> {
    if |edges| == 0 then []
    else seq(|edges| - 1, i requires 0 <= i < |edges| - 1 => (edges[i] + edges[i + 1]) / 2.0)
  }

  /** The `bin_mid.append((bin_edges[i]+bin_edges[i+1])/2.0)` loop over `range(len(bin_edges)-1)`. */
  method BinMidpoints(edges: seq<real>) returns (mids: seq<real>)
    ensures |mids| == (if |edges| == 0 then 0 else |edges| - 1)
    ensures forall i :: 0 <= i < |mids| ==> mids[i] == (edges[i] + edges[i + 1]) / 2.0
    ensures mids == Centres(edges)
  {
    mids := [];
    var i := 0;
    while i < |edges| - 1
      invariant 0 <= i && (|edges| > 0 ==> i <= |edges| - 1) && (|edges| == 0 ==> i == 0)
      invariant |mids| == i
      invariant forall k :: 0 <= k < i ==> mids[k] == (edges[k] + edges[k + 1]) / 2.0
    {
      mids := mids + [(edges[i] + edges[i + 1]) / 2.0];
      i := i + 1;
    }
    assert |mids| == |Centres(edges)|;
  }

  predicate StrictlyIncreasing(s: seq<real>) {
    forall i :: 0 <= i < |s| - 1 ==> s[i] < s[i + 1]
  }

  /** Consecutive entries of `s` are `w` apart (numpy's equal-width bins). */
  predicate UniformSpacing(s: seq<real>, w: real) {
    forall i :: 0 <= i < |s| - 1 ==> s[i + 1] - s[i] == w
  }

  /**
   * Each centre lies strictly inside its bin, the centres increase, and centres of
   * equal-width bins are one bin width apart -- which is why `bin_mid[1] - bin_mid[0]`
   * is the bin width in the boundary correction.
   */
  lemma MidpointsInsideBins(edges: seq<real>)
    requires StrictlyIncreasing(edges)
    ensures forall i :: 0 <= i < |Centres(edges)| ==> edges[i] < Centres(edges)[i] < edges[i + 1]
    ensures StrictlyIncreasing(Centres(edges))
  {
    var mids := Centres(edges);
    forall i | 0 <= i < |mids|
      ensures edges[i] < mids[i] < edges[i + 1]
    {
      assert edges[i] < edges[i + 1];
    }
  }

  lemma MidpointsKeepSpacing(edges: seq<real>, w: real)
    requires UniformSpacing(edges, w)
    ensures UniformSpacing(Centres(edges), w)
    ensures |Centres(edges)| >= 2 ==> Centres(edges)[1] - Centres(edges)[0] == edges[1] - edges[0] == w
  {
    var mids := Centres(edges);
    forall i | 0 <= i < |mids| - 1
      ensures mids[i + 1] - mids[i] == w
    {
      assert edges[i + 1] - edges[i] == w && edges[i + 2] - edges[i + 1] == w;
    }
  }
}
