/** Bitmaps as `Color[SizeX, SizeY]` grids filled in row-major order: the
    loaders store pixel i at cell (i % SizeX, i / SizeX), the savers read
    it from there. */
module Grid {
  import opened Common
  import opened NetpbmFormat

  /** The grid holds the row-major pixels: cell (x, y) is pixel y * w + x. */
  ghost predicate Holds(grid: array2<Color>, pixels: seq<Color>)
    reads grid
  {
    && |pixels| == grid.Length0 * grid.Length1
    && forall x, y :: 0 <= x < grid.Length0 && 0 <= y < grid.Length1 ==>
         RowMajor(x, y, grid.Length0) < |pixels| && grid[x, y] == pixels[RowMajor(x, y, grid.Length0)]
  }

  /** The grid holds the first |done| pixels, and its other cells are
      still default(Color). */
  ghost predicate HoldsPrefix(grid: array2<Color>, done: seq<Color>)
    reads grid
  {
    forall x, y :: 0 <= x < grid.Length0 && 0 <= y < grid.Length1 ==>
      grid[x, y] == if RowMajor(x, y, grid.Length0) < |done| then done[RowMajor(x, y, grid.Length0)] else Empty
  }

  /** `result[x(i), y(i)] = c` for the next pixel i = |done|. */
  method Place(grid: array2<Color>, i: nat, c: Color, ghost done: seq<Color>)
    requires grid.Length0 > 0 && i / grid.Length0 < grid.Length1
    requires i == |done| && HoldsPrefix(grid, done)
    modifies grid
    ensures HoldsPrefix(grid, done + [c])
  {
    var w := grid.Length0;
    var x, y := i % w, i / w;
    CellIndex(x, y, w, grid.Length1, i);
    grid[x, y] := c;
  }

  /** Cell (i % w, i / w) of a w by h grid is the cell whose row-major
      number is i, and no other cell has that number. */
  lemma CellIndex(x: nat, y: nat, w: nat, h: nat, i: nat)
    requires w > 0 && x == i % w && y == i / w && y < h
    ensures x < w && RowMajor(x, y, w) == i
    ensures forall x', y' :: 0 <= x' < w && 0 <= y' < h && RowMajor(x', y', w) == i ==> x' == x && y' == y
  {
    forall x', y' | 0 <= x' < w && 0 <= y' < h && RowMajor(x', y', w) == i
      ensures x' == x && y' == y
    {
      DivisionUnique(i, w, y', x');
    }
  }

  /** Once all w * h cells are filled the grid holds the pixels. */
  lemma HoldsAll(grid: array2<Color>, done: seq<Color>)
    requires |done| == grid.Length0 * grid.Length1
    requires HoldsPrefix(grid, done)
    ensures Holds(grid, done)
  {
    forall x, y | 0 <= x < grid.Length0 && 0 <= y < grid.Length1
      ensures RowMajor(x, y, grid.Length0) < |done|
    {
      RowMajorBound(x, y, grid.Length0, grid.Length1);
    }
  }

  /** The number of cells of a bitmap. */
  function Area(bitmap: array2<Color>): nat { bitmap.Length0 * bitmap.Length1 }

  /** The cell a saver reads for pixel n of a bitmap whose SizeX is its width. */
  function CellOf(bitmap: array2<Color>, n: nat): Color
    reads bitmap
    requires n < Area(bitmap)
  {
    NotPastLastRow(n, bitmap.Length0, bitmap.Length1);
    bitmap[n % bitmap.Length0, n / bitmap.Length0]
  }

  lemma NotPastLastRow(n: nat, w: nat, h: nat)
    requires n < w * h
    ensures w > 0 && n / w < h
  {
    if n / w >= h {
      MulMonotone(h, n / w, w);
    }
  }

  /** The cells of a bitmap in the order the savers visit them when
      SizeX is its width: pixel n is cell (n % width, n / width). */
  function Cells(bitmap: array2<Color>): (cells: seq<Color>)
    reads bitmap
    ensures |cells| == Area(bitmap)
  {
    seq(Area(bitmap), n reads bitmap requires 0 <= n < Area(bitmap) => CellOf(bitmap, n))
  }

  /** Cell (x, y) is pixel y * SizeX + x. */
  lemma CellsRowMajor(bitmap: array2<Color>, x: nat, y: nat)
    requires x < bitmap.Length0 && y < bitmap.Length1
    ensures RowMajor(x, y, bitmap.Length0) < |Cells(bitmap)|
    ensures Cells(bitmap)[RowMajor(x, y, bitmap.Length0)] == bitmap[x, y]
  {
    RowMajorBound(x, y, bitmap.Length0, bitmap.Length1);
    CoordsOfCell(x, y, bitmap.Length0);
  }

  /** `done` followed by the cells of a successful rest of a loader's loop. */
  function Prepend(done: seq<Color>, r: Result<seq<Color>>): Result<seq<Color>>
  {
    if r.Ok? then Ok(done + r.value) else r
  }

  /** `done` then one more pixel then the rest is `done + [c]` then the rest. */
  lemma PrependTwice(done: seq<Color>, c: Color, r: Result<seq<Color>>)
    ensures Prepend(done, Prepend([c], r)) == Prepend(done + [c], r)
  {
    if r.Ok? {
      assert done + ([c] + r.value) == (done + [c]) + r.value;
    }
  }
}
