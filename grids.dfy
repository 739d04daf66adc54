/**
 * Two-dimensional integer images as NumPy holds them: a row-major grid of
 * pixel values, either as an immutable value (`Grid`) or as an `array2<int>`
 * that a method updates in place.
 */
module Grids {

  /** An image as a value: `g[row][col]`. */
  type Grid = seq<seq<int>>

  /** `g` is a rectangular `h` by `w` grid (a NumPy array of shape (h, w)). */
  ghost predicate IsGrid(g: Grid, h: nat, w: nat) {
    |g| == h && forall i :: 0 <= i < h ==> |g[i]| == w
  }

  /** The width of a grid, read off its first row, as NumPy's `shape[1]`. */
  function Width(g: Grid): (w: nat)
    ensures g != [] ==> w == |g[0]|
  {
    if g == [] then 0 else |g[0]|
  }

  /** `g` is a rectangular image: every row is as wide as the first. */
  ghost predicate IsImage(g: Grid) {
    IsGrid(g, |g|, Width(g))
  }

  /** Two grids of the same shape with the same pixels are the same grid. */
  lemma GridExtensionality(a: Grid, b: Grid, h: nat, w: nat)
    requires IsGrid(a, h, w) && IsGrid(b, h, w)
    requires forall i, j :: 0 <= i < h && 0 <= j < w ==> a[i][j] == b[i][j]
    ensures a == b
  {
    forall i | 0 <= i < h
      ensures a[i] == b[i]
    {
      assert |a[i]| == |b[i]| == w;
    }
  }

  /** The pixels currently held by an array, as a grid value. */
  function Contents(a: array2<int>): (g: Grid)
    reads a
    ensures IsGrid(g, a.Length0, a.Length1)
    ensures forall i, j :: 0 <= i < a.Length0 && 0 <= j < a.Length1 ==> g[i][j] == a[i, j]
  {
    seq(a.Length0, i reads a requires 0 <= i < a.Length0 =>
      seq(a.Length1, j reads a requires 0 <= j < a.Length1 => a[i, j]))
  }

  /**
   * NumPy's boolean-mask assignment `g[sel] = 0`: every pixel the selection
   * picks becomes 0, every other pixel keeps its value.
   */
  function Zeroed(g: Grid, sel: (nat, nat) -> bool): (r: Grid)
    ensures |r| == |g|
    ensures forall i :: 0 <= i < |g| ==> |r[i]| == |g[i]|
    ensures forall i, j :: 0 <= i < |g| && 0 <= j < |g[i]| ==>
      r[i][j] == if sel(i, j) then 0 else g[i][j]
  {
    seq(|g|, i requires 0 <= i < |g| =>
      seq(|g[i]|, j requires 0 <= j < |g[i]| => if sel(i, j) then 0 else g[i][j]))
  }

  /** Zeroing the same selection twice is the same as zeroing it once. */
  lemma ZeroedIdempotent(g: Grid, sel: (nat, nat) -> bool)
    ensures Zeroed(Zeroed(g, sel), sel) == Zeroed(g, sel)
  {
    var once := Zeroed(g, sel);
    var twice := Zeroed(once, sel);
    forall i | 0 <= i < |g|
      ensures twice[i] == once[i]
    {
      assert |twice[i]| == |once[i]|;
    }
  }

  /** In-place `a[sel] = 0` on an image array. */
  method ZeroWhere(a: array2<int>, sel: (nat, nat) -> bool)
    modifies a
    ensures Contents(a) == Zeroed(old(Contents(a)), sel)
  {
    ghost var before := Contents(a);
    forall i, j | 0 <= i < a.Length0 && 0 <= j < a.Length1 && sel(i, j) {
      a[i, j] := 0;
    }
    GridExtensionality(Contents(a), Zeroed(before, sel), a.Length0, a.Length1);
  }

  /** The number of pixels of `g` equal to `v` (the counts of `np.unique`). */
  function Count(g: Grid, v: int): (n: nat)
  {
    if g == [] then 0 else Count(g[..|g| - 1], v) + multiset(g[|g| - 1])[v]
  }

  /** The set of values present in `g` (the labels of `np.unique`). */
  function Values(g: Grid): (vs: set<int>)
    ensures forall i, j :: 0 <= i < |g| && 0 <= j < |g[i]| ==> g[i][j] in vs
    ensures forall v :: v in vs ==> exists i, j :: 0 <= i < |g| && 0 <= j < |g[i]| && g[i][j] == v
  {
    set i, j | 0 <= i < |g| && 0 <= j < |g[i]| :: g[i][j]
  }

  /** A value is present in a grid exactly when it is counted at least once. */
  lemma {:induction false} CountPositive(g: Grid, v: int)
    ensures Count(g, v) > 0 <==> v in Values(g)
  {
    if g != [] {
      var last := |g| - 1;
      CountPositive(g[..last], v);
      if v in Values(g[..last]) {
        var i, j :| 0 <= i < last && 0 <= j < |g[..last][i]| && g[..last][i][j] == v;
        assert g[i][j] == v;
      }
      if v in g[last] {
        var j :| 0 <= j < |g[last]| && g[last][j] == v;
        assert g[last][j] in Values(g);
      }
      if v in Values(g) {
        var i, j :| 0 <= i < |g| && 0 <= j < |g[i]| && g[i][j] == v;
        if i < last {
          assert g[..last][i][j] in Values(g[..last]);
        } else {
          assert g[last][j] in multiset(g[last]);
        }
      }
    }
  }
}
