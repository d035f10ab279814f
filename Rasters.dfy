/** The raster data the modelled code works on: numpy float cells (with NaN),
    rectangular grids, and what the raster library reports about a GeoTIFF. */
module Rasters {
  import opened Outcomes

  /** One float pixel: NaN or a number. */
  datatype Cell = NaN | Val(v: real)

  /** IEEE `a == b`: NaN equals nothing, not even NaN. */
  predicate Eq(a: Cell, b: Cell) {
    a.Val? && b.Val? && a.v == b.v
  }

  /** IEEE `c < t`: false for NaN. */
  predicate Below(c: Cell, t: real) {
    c.Val? && c.v < t
  }

  predicate Rectangular<T>(g: seq<seq<T>>) {
    forall i :: 0 <= i < |g| ==> |g[i]| == |g[0]|
  }

  /** The number of columns (0 for a grid without rows). */
  function Width<T>(g: seq<seq<T>>): nat {
    if |g| == 0 then 0 else |g[0]|
  }

  /** A two-dimensional float array, row by row. */
  type Grid = g: seq<seq<Cell>> | Rectangular(g) witness []

  predicate SameShape(a: Grid, b: Grid) {
    |a| == |b| && Width(a) == Width(b)
  }

  predicate InGrid(g: Grid, i: int, j: int) {
    0 <= i < |g| && 0 <= j < Width(g)
  }

  /** `arr.flatten()`: the cells in row-major order. */
  function Flatten(g: seq<seq<Cell>>): seq<Cell> {
    if g == [] then [] else Flatten(g[..|g| - 1]) + g[|g| - 1]
  }

  lemma {:induction false} FlattenLength(g: Grid)
    ensures |Flatten(g)| == |g| * Width(g)
  {
    if g != [] {
      var init: Grid := g[..|g| - 1];
      FlattenLength(init);
      assert |init| > 0 ==> init[0] == g[0];
      assert |g| * Width(g) == |init| * Width(g) + Width(g);
    }
  }

  /** Row-major order: cell (i, j) is element `i * width + j` of the flattening. */
  lemma {:induction false} FlattenAt(g: Grid, i: nat, j: nat)
    requires InGrid(g, i, j)
    ensures i * Width(g) + j < |Flatten(g)| && Flatten(g)[i * Width(g) + j] == g[i][j]
  {
    var w, n := Width(g), |g| - 1;
    var init: Grid := g[..n];
    assert n > 0 ==> init[0] == g[0];
    FlattenLength(init);
    var a, b := Flatten(init), g[n];
    assert Flatten(g) == a + b;
    assert |a| == n * w;
    if i < n {
      FlattenAt(init, i, j);
      RowBeforeLast(i, j, n, w);
      assert Flatten(g)[i * w + j] == a[i * w + j];
    } else {
      assert Flatten(g)[i * w + j] == b[j];
    }
  }

  lemma RowBeforeLast(i: nat, j: nat, n: nat, w: nat)
    requires i < n && j < w
    ensures i * w + j < n * w
  {
    assert i * w + j < (i + 1) * w;
    assert (i + 1) * w <= n * w;
  }

  /** Python's `int(x)` and numpy's `astype(int)` for a float: truncation toward zero. */
  function TruncTowardZero(x: real): (t: int)
    ensures x >= 0.0 ==> t >= 0 && t as real <= x < t as real + 1.0
    ensures x < 0.0 ==> t <= 0 && t as real - 1.0 < x <= t as real
  {
    if x >= 0.0 then x.Floor else -((-x).Floor)
  }

  /** A raster's bounds in the library's order: left, bottom, right, top. */
  datatype Bounds = Bounds(left: real, bottom: real, right: real, top: real)

  /** What the raster library reports about one GeoTIFF: its CRS as text,
      its bounds, its nodata value (None when it has none) and band 1. */
  datatype RasterFile = RasterFile(crs: string, bounds: Bounds, nodata: Option<Cell>, band: Grid)

  /** The contents of a two-dimensional array, row by row. */
  ghost function Cells(a: array2<Cell>): (g: Grid)
    reads a
    ensures |g| == a.Length0 && (a.Length0 > 0 ==> Width(g) == a.Length1)
    ensures forall i, j :: 0 <= i < a.Length0 && 0 <= j < a.Length1 ==> g[i][j] == a[i, j]
  {
    seq(a.Length0, i reads a requires 0 <= i < a.Length0 =>
      seq(a.Length1, j reads a requires 0 <= j < a.Length1 => a[i, j]))
  }

  /** A new array holding the cells of `g`. */
  method FromGrid(g: Grid, width: nat) returns (a: array2<Cell>)
    requires |g| > 0 ==> width == Width(g)
    ensures fresh(a) && a.Length0 == |g| && a.Length1 == width
    ensures forall i, j :: 0 <= i < |g| && 0 <= j < width ==> a[i, j] == g[i][j]
  {
    a := new Cell[|g|, width]((i, j) requires 0 <= i < |g| && 0 <= j < width => g[i][j]);
  }

  /** Two arrays' worth of cells agree when their shapes and every cell agree. */
  lemma CellsAre(a: array2<Cell>, g: Grid)
    requires |g| == a.Length0 && (|g| > 0 ==> Width(g) == a.Length1)
    requires forall i, j :: 0 <= i < a.Length0 && 0 <= j < a.Length1 ==> a[i, j] == g[i][j]
    ensures Cells(a) == g
  {
    var c := Cells(a);
    forall i | 0 <= i < |g|
      ensures c[i] == g[i]
    {
      assert |c[i]| == |g[i]|;
    }
  }

  /** The same function applied to every cell (a numpy element-wise assignment). */
  function MapCells(f: Cell -> Cell, g: Grid): (r: Grid)
    ensures |r| == |g| && Width(r) == Width(g)
    ensures forall i, j :: InGrid(g, i, j) ==> r[i][j] == f(g[i][j])
  {
    seq(|g|, i requires 0 <= i < |g| => seq(|g[i]|, j requires 0 <= j < |g[i]| => f(g[i][j])))
  }

  /** An element-wise assignment `arr[...] = f(arr)` over the whole array, in place. */
  method MapInPlace(arr: array2<Cell>, f: Cell -> Cell)
    modifies arr
    ensures forall i, j :: 0 <= i < arr.Length0 && 0 <= j < arr.Length1 ==> arr[i, j] == f(old(arr[i, j]))
  {
    for i := 0 to arr.Length0
      invariant forall p, q :: 0 <= p < arr.Length0 && 0 <= q < arr.Length1 ==>
        arr[p, q] == if p < i then f(old(arr[p, q])) else old(arr[p, q])
    {
      for j := 0 to arr.Length1
        invariant forall p, q :: 0 <= p < arr.Length0 && 0 <= q < arr.Length1 ==>
          arr[p, q] == if p < i || (p == i && q < j) then f(old(arr[p, q])) else old(arr[p, q])
      {
        arr[i, j] := f(arr[i, j]);
      }
    }
  }
}
