/** Row-major grids: the nested `for dummyi ... for dummyj ...` traversal of the 2-D script. */
module Grid {

  /** Every row of `g` has `w` entries (the shape numpy gives `hist`). */
  predicate IsRect<T>(g: seq<seq<T>>, w: nat) {
    forall i :: 0 <= i < |g| ==> |g[i]| == w
  }

  /** The rows of `g` laid end to end: x outer, y inner. */
  function Flatten<T>(g: seq<seq<T>>): seq<T> {
    if g == [] then [] else Flatten(g[..|g| - 1]) + g[|g| - 1]
  }

  /** Adding a row to the grid appends it to the row-major order. */
  lemma FlattenSnoc<T>(g: seq<seq<T>>, row: seq<T>)
    ensures Flatten(g + [row]) == Flatten(g) + row
  {
    assert (g + [row])[..|g|] == g;
  }

  /** Entry (i, j) of a rectangular grid sits at position i*w + j of the row-major order. */
  lemma {:induction false} FlattenIndex<T>(g: seq<seq<T>>, w: nat, i: nat, j: nat)
    requires IsRect(g, w)
    requires i < |g| && j < w
    ensures i * w + j < |Flatten(g)| && Flatten(g)[i * w + j] == g[i][j]
  {
    FlattenLength(g, w);
    RowOffsetBelow(i, |g|, w, j);
    var n := |g| - 1;
    var front := g[..n];
    FlattenLength(front, w);
    var k := i * w + j;
    var flat := Flatten(front);
    assert Flatten(g) == flat + g[n];
    if i < n {
      RowOffsetBelow(i, n, w, j);
      FlattenIndex(front, w, i, j);
      assert flat[k] == front[i][j];
    } else {
      assert k - |flat| == j;
    }
  }

  /** Entry (i, j) of a rectangular grid occurs in the row-major order, at a position returned as `k`. */
  lemma FlattenPosition<T>(g: seq<seq<T>>, w: nat, i: nat, j: nat) returns (k: nat)
    requires IsRect(g, w)
    requires i < |g| && j < w
    ensures k < |Flatten(g)| && Flatten(g)[k] == g[i][j]
  {
    k := i * w + j;
    FlattenIndex(g, w, i, j);
  }

  /** Positions of row i come before row n when i < n. */
  lemma RowOffsetBelow(i: nat, n: nat, w: nat, j: nat)
    requires i < n && j < w
    ensures i * w + j < n * w
  {
    MulStep(i, w);
    MulMonotone(i + 1, n, w);
  }

  lemma MulStep(a: int, w: int)
    ensures (a + 1) * w == a * w + w
  {
  }

  lemma {:induction false} MulMonotone(a: nat, b: nat, w: nat)
    requires a <= b
    ensures a * w <= b * w
  {
    if a < b {
      MulMonotone(a, b - 1, w);
      MulStep(b - 1, w);
    }
  }

  /** A rectangular grid of `|g|` rows of `w` entries flattens to `|g|*w` entries. */
  lemma {:induction false} FlattenLength<T>(g: seq<seq<T>>, w: nat)
    requires IsRect(g, w)
    ensures |Flatten(g)| == |g| * w
  {
    if g != [] {
      FlattenLength(g[..|g| - 1], w);
      MulStep(|g| - 1, w);
    }
  }

  /** Every position of the row-major order comes from some entry (i, j) of the grid. */
  lemma {:induction false} FlattenSource<T>(g: seq<seq<T>>, w: nat, k: nat) returns (i: nat, j: nat)
    requires IsRect(g, w)
    requires k < |Flatten(g)|
    ensures i < |g| && j < w && Flatten(g)[k] == g[i][j]
  {
    var n := |g| - 1;
    var front := g[..n];
    if k < |Flatten(front)| {
      i, j := FlattenSource(front, w, k);
    } else {
      i, j := n, k - |Flatten(front)|;
    }
  }
}
