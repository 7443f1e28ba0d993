/**
  The neighbourhood of a pixel that the TS estimator fits: the kernel-sized
  window around it (`_extract_array`), and the interior of the image where such
  a window fits.
 */
module TsWindow {
  import opened Grids

  /** The pixel (j, i) lies at least half a kernel (k0 rows, k1 columns) from
      every edge of an h x w image, as `_get_positions` bounds its ranges. */
  predicate Interior(h: int, w: int, k0: nat, k1: nat, j: int, i: int) {
    k0 / 2 <= j < h - k0 / 2 && k1 / 2 <= i < w - k1 / 2
  }

  /** `_extract_array` as written: the row half-width and the column half-width
      are both taken from shape[0]. The window has 2 * (shape[0] // 2) + 1 rows
      and as many columns, whatever shape[1] is. */
  function ExtractArray<T>(g: Grid<T>, shape: (nat, nat), pos: (int, int)): (r: Grid<T>)
    requires Rect(g)
    requires Interior(|g|, Width(g), shape.0, shape.0, pos.0, pos.1)
    ensures IsGrid(r, 2 * (shape.0 / 2) + 1, 2 * (shape.0 / 2) + 1)
    ensures forall a, b :: 0 <= a < 2 * (shape.0 / 2) + 1 && 0 <= b < 2 * (shape.0 / 2) + 1 ==>
              r[a][b] == g[pos.0 - shape.0 / 2 + a][pos.1 - shape.0 / 2 + b]
  {
    var width := shape.0 / 2;
    Block(g, pos.0 - width, pos.0 + width + 1, pos.1 - width, pos.1 + width + 1)
  }

  /** The window the estimator means: shape[0] // 2 rows and shape[1] // 2
      columns on either side of the pixel. */
  function ExtractWindow<T>(g: Grid<T>, shape: (nat, nat), pos: (int, int)): (r: Grid<T>)
    requires Rect(g)
    requires Interior(|g|, Width(g), shape.0, shape.1, pos.0, pos.1)
    ensures IsGrid(r, 2 * (shape.0 / 2) + 1, 2 * (shape.1 / 2) + 1)
    ensures forall a, b :: 0 <= a < 2 * (shape.0 / 2) + 1 && 0 <= b < 2 * (shape.1 / 2) + 1 ==>
              r[a][b] == g[pos.0 - shape.0 / 2 + a][pos.1 - shape.1 / 2 + b]
  {
    Block(g, pos.0 - shape.0 / 2, pos.0 + shape.0 / 2 + 1, pos.1 - shape.1 / 2, pos.1 + shape.1 / 2 + 1)
  }

  /** For an odd kernel the window has exactly the kernel's shape. */
  lemma WindowHasKernelShape<T>(g: Grid<T>, shape: (nat, nat), pos: (int, int))
    requires Rect(g)
    requires Interior(|g|, Width(g), shape.0, shape.1, pos.0, pos.1)
    requires shape.0 % 2 == 1 && shape.1 % 2 == 1
    ensures IsGrid(ExtractWindow(g, shape, pos), shape.0, shape.1)
  {
  }

  /** On a square kernel the window as written and the intended window coincide. */
  lemma SquareKernelWindowsAgree<T>(g: Grid<T>, shape: (nat, nat), pos: (int, int))
    requires Rect(g)
    requires shape.0 == shape.1
    requires Interior(|g|, Width(g), shape.0, shape.1, pos.0, pos.1)
    ensures ExtractArray(g, shape, pos) == ExtractWindow(g, shape, pos)
  {
  }

  /** On an odd kernel with shape[0] != shape[1], the window as written does not
      have the kernel's number of columns, so the element-wise product of the
      exposure window with the kernel is between arrays of different shapes. */
  lemma NonSquareKernelWindowMisfits<T>(g: Grid<T>, shape: (nat, nat), pos: (int, int))
    requires Rect(g)
    requires shape.0 % 2 == 1 && shape.1 % 2 == 1 && shape.0 != shape.1
    requires Interior(|g|, Width(g), shape.0, shape.0, pos.0, pos.1)
    ensures |ExtractArray(g, shape, pos)| == shape.0
    ensures forall a :: 0 <= a < shape.0 ==> |ExtractArray(g, shape, pos)[a]| != shape.1
  {
  }

  /** Taking the window commutes with an element-wise map: the window of the
      null-statistic image is the statistic of the windows. */
  lemma {:induction false} WindowOfZip<A, B, C>(f: (A, B) -> C, a: Grid<A>, b: Grid<B>, shape: (nat, nat), pos: (int, int))
    requires Rect(a) && SameShape(a, b)
    requires Interior(|a|, Width(a), shape.0, shape.1, pos.0, pos.1)
    ensures Rect(b) && Rect(Zip(f, a, b))
    ensures Width(b) == Width(a) && Width(Zip(f, a, b)) == Width(a)
    ensures ExtractWindow(Zip(f, a, b), shape, pos) ==
            Zip(f, ExtractWindow(a, shape, pos), ExtractWindow(b, shape, pos))
  {
    var z := Zip(f, a, b);
    var h, w := 2 * (shape.0 / 2) + 1, 2 * (shape.1 / 2) + 1;
    var wa, wb := ExtractWindow(a, shape, pos), ExtractWindow(b, shape, pos);
    var lhs, rhs := ExtractWindow(z, shape, pos), Zip(f, wa, wb);
    assert IsGrid(rhs, h, w);
    forall r, c | 0 <= r < h && 0 <= c < w ensures lhs[r][c] == rhs[r][c] {
      var y, x := pos.0 - shape.0 / 2 + r, pos.1 - shape.1 / 2 + c;
      assert lhs[r][c] == z[y][x] == f(a[y][x], b[y][x]);
    }
    GridsEqual(lhs, rhs, h, w);
  }
}
