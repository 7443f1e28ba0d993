/**
  Two-dimensional images as values: a sequence of rows. These stand for the
  numpy arrays the estimator reads but never changes (counts, background,
  the kernel, the null-statistic image).
 */
module Grids {

  type Grid<T> = seq<seq<T>>

  /** The grid has h rows of w entries each. */
  predicate IsGrid<T>(g: Grid<T>, h: nat, w: nat) {
    |g| == h && forall j :: 0 <= j < h ==> |g[j]| == w
  }

  /** Number of columns, read from the first row. */
  function Width<T>(g: Grid<T>): nat {
    if |g| == 0 then 0 else |g[0]|
  }

  /** A numpy 2-D array: every row is as wide as the first. */
  predicate Rect<T>(g: Grid<T>) {
    IsGrid(g, |g|, Width(g))
  }

  /** Row by row, the two grids have the same lengths. */
  predicate SameShape<A, B>(a: Grid<A>, b: Grid<B>) {
    |a| == |b| && forall j :: 0 <= j < |a| ==> |a[j]| == |b[j]|
  }

  /** An h x w grid with every entry x (numpy.full). */
  function Fill<T>(h: nat, w: nat, x: T): (r: Grid<T>)
    ensures IsGrid(r, h, w)
    ensures forall j, i :: 0 <= j < h && 0 <= i < w ==> r[j][i] == x
  {
    seq(h, _ => seq(w, _ => x))
  }

  /** Element-wise combination of two grids of one shape. */
  function Zip<A, B, C>(f: (A, B) -> C, a: Grid<A>, b: Grid<B>): (r: Grid<C>)
    requires SameShape(a, b)
    ensures SameShape(r, a)
    ensures forall j, i :: 0 <= j < |a| && 0 <= i < |a[j]| ==> r[j][i] == f(a[j][i], b[j][i])
  {
    seq(|a|, j requires 0 <= j < |a| => seq(|a[j]|, i requires 0 <= i < |a[j]| => f(a[j][i], b[j][i])))
  }

  function RowSum(row: seq<real>): real {
    if row == [] then 0.0 else RowSum(row[..|row| - 1]) + row[|row| - 1]
  }

  /** numpy's sum over all entries. */
  function Sum(g: Grid<real>): real {
    if g == [] then 0.0 else Sum(g[..|g| - 1]) + RowSum(g[|g| - 1])
  }

  /** The slice g[ylo:yhi, xlo:xhi], for bounds that lie inside the grid. */
  function Block<T>(g: Grid<T>, ylo: int, yhi: int, xlo: int, xhi: int): (r: Grid<T>)
    requires 0 <= ylo <= yhi <= |g| && 0 <= xlo <= xhi
    requires forall j :: ylo <= j < yhi ==> xhi <= |g[j]|
    ensures IsGrid(r, yhi - ylo, xhi - xlo)
    ensures forall a, b :: 0 <= a < yhi - ylo && 0 <= b < xhi - xlo ==> r[a][b] == g[ylo + a][xlo + b]
  {
    seq(yhi - ylo, a requires 0 <= a < yhi - ylo => g[ylo + a][xlo..xhi])
  }

  /** A grid of the same shape as a numpy 2-D array is one too, as wide. */
  lemma SameShapeRect<A, B>(a: Grid<A>, b: Grid<B>)
    requires Rect(a) && SameShape(a, b)
    ensures Rect(b) && Width(b) == Width(a)
  {
  }

  lemma GridsEqual<T>(a: Grid<T>, b: Grid<T>, h: nat, w: nat)
    requires IsGrid(a, h, w) && IsGrid(b, h, w)
    requires forall j, i :: 0 <= j < h && 0 <= i < w ==> a[j][i] == b[j][i]
    ensures a == b
  {
    forall j | 0 <= j < h ensures a[j] == b[j] {
      assert forall i :: 0 <= i < w ==> a[j][i] == b[j][i];
    }
  }
}
