/**
 * Grid arithmetic of the collage builder: how many rows a collage of `n`
 * images needs, how large the canvas is, and where the top-left corner of
 * each image's cell lies. Every quantity is a non-negative integer, so
 * Python's floor division `//` and `%` coincide with Dafny's `/` and `%`.
 */
module Layout {

  datatype Option<T> = None | Some(value: T)

  /** The fixed layout configuration: cell size, padding and column count. */
  datatype Grid = Grid(cellWidth: nat, cellHeight: nat, padding: nat, cols: nat)

  /** Horizontal distance between the left edges of neighbouring cells. */
  function StrideX(g: Grid): nat { g.cellWidth + g.padding }

  /** Vertical distance between the top edges of neighbouring cells. */
  function StrideY(g: Grid): nat { g.cellHeight + g.padding }

  // ---------------------------------------------------------------------
  // Integer helpers
  // ---------------------------------------------------------------------

  /** A multiple of a positive `s` that lies strictly between -s and s is 0. */
  lemma MultipleInOpenBand(d: int, s: int)
    requires s > 0 && -s < d * s < s
    ensures d == 0
  {
  }

  /** Quotient and remainder are unique: `x == q * s + r` with `0 <= r < s` fixes both. */
  lemma DivModUnique(x: int, s: int, q: int, r: int)
    requires s > 0 && 0 <= r < s && x == q * s + r
    ensures x / s == q && x % s == r
  {
    var q', r' := x / s, x % s;
    assert x == q' * s + r';
    assert (q - q') * s == r' - r;
    MultipleInOpenBand(q - q', s);
  }

  /** Multiplying by a positive factor is strictly monotone, so it can be cancelled. */
  lemma MulCancelLess(a: int, b: int, c: int)
    requires c > 0 && a * c < b * c
    ensures a < b
  {
  }

  /** Multiplying by a non-negative factor is monotone. */
  lemma MulMonotone(a: int, b: int, c: int)
    requires c >= 0 && a <= b
    ensures a * c <= b * c
  {
    assert b * c - a * c == (b - a) * c;
    assert (b - a) * c >= 0;
  }

  // ---------------------------------------------------------------------
  // Rows and canvas size
  // ---------------------------------------------------------------------

  /** Number of grid rows, `(n + cols - 1) // cols`: the ceiling of n / cols. */
  function Rows(n: nat, cols: nat): (rows: nat)
    requires cols > 0
    ensures rows * cols >= n
    ensures n > 0 ==> (rows - 1) * cols < n
    ensures n == 0 ==> rows == 0
  {
    var q := (n + cols - 1) / cols;
    DivModUnique(n + cols - 1, cols, q, (n + cols - 1) % cols);
    assert (q - 1) * cols == q * cols - cols;
    if n == 0 then
      DivModUnique(cols - 1, cols, 0, cols - 1);
      q
    else
      q
  }

  /** The two ceiling properties determine the row count uniquely. */
  lemma RowsUnique(n: nat, cols: nat, r: nat)
    requires cols > 0
    requires r * cols >= n
    requires n > 0 ==> (r - 1) * cols < n
    requires n == 0 ==> r == 0
    ensures r == Rows(n, cols)
  {
    var rows := Rows(n, cols);
    if n > 0 {
      // Both r and rows satisfy (x - 1) * cols < n <= x * cols.
      MulCancelLess(r - 1, rows, cols);
      MulCancelLess(rows - 1, r, cols);
    }
  }

  /** Canvas width, `cols * (cellWidth + padding) + padding`: the canvas ends
      one padding after the right edge of the cells in the last column. */
  function CanvasWidth(g: Grid): (width: nat)
    ensures g.cols > 0 ==> width == CellX(g, g.cols - 1) + g.cellWidth + g.padding
  {
    if g.cols > 0 then
      DivModUnique(g.cols - 1, g.cols, 0, g.cols - 1);
      assert (g.cols - 1) * StrideX(g) == g.cols * StrideX(g) - StrideX(g);
      g.cols * StrideX(g) + g.padding
    else
      g.cols * StrideX(g) + g.padding
  }

  /** Canvas height for `n` images, `rows * (cellHeight + padding) + padding`:
      the canvas ends one padding below the cell of the last image, and with
      no images it is the padding alone. */
  function CanvasHeight(g: Grid, n: nat): (height: nat)
    requires g.cols > 0
    ensures n == 0 ==> height == g.padding
    ensures n > 0 ==> height == CellY(g, n - 1) + g.cellHeight + g.padding
  {
    var rows := Rows(n, g.cols);
    if n > 0 then
      DivModUnique(n - 1, g.cols, rows - 1, n - 1 - (rows - 1) * g.cols);
      assert (rows - 1) * StrideY(g) == rows * StrideY(g) - StrideY(g);
      rows * StrideY(g) + g.padding
    else
      rows * StrideY(g) + g.padding
  }

  /** An empty file list gives no rows: only the top padding remains in height,
      while the width still spans all `cols` columns. */
  lemma EmptyCanvas(g: Grid)
    requires g.cols > 0
    ensures Rows(0, g.cols) == 0
    ensures CanvasHeight(g, 0) == g.padding
    ensures CanvasWidth(g) == g.cols * (g.cellWidth + g.padding) + g.padding
  {
  }

  // ---------------------------------------------------------------------
  // Grid slots and cell offsets
  // ---------------------------------------------------------------------

  /** Grid column of the image at list index `k`: `k % cols`. */
  function Column(g: Grid, k: nat): nat
    requires g.cols > 0
  {
    k % g.cols
  }

  /** Grid row of the image at list index `k`: `k // cols`. */
  function Row(g: Grid, k: nat): nat
    requires g.cols > 0
  {
    k / g.cols
  }

  /** List index of the slot in column `col` and row `row` (row-major order). */
  function SlotIndex(g: Grid, col: nat, row: nat): nat
  {
    row * g.cols + col
  }

  /** Left edge of the cell of image `k`. */
  function CellX(g: Grid, k: nat): nat
    requires g.cols > 0
  {
    Column(g, k) * StrideX(g) + g.padding
  }

  /** Top edge of the cell of image `k`. */
  function CellY(g: Grid, k: nat): nat
    requires g.cols > 0
  {
    Row(g, k) * StrideY(g) + g.padding
  }

  /** Pixel (x, y) lies in the `cellWidth` x `cellHeight` rectangle of image `k`. */
  predicate InCell(g: Grid, k: nat, x: int, y: int)
    requires g.cols > 0
  {
    CellX(g, k) <= x < CellX(g, k) + g.cellWidth &&
    CellY(g, k) <= y < CellY(g, k) + g.cellHeight
  }

  /** Index to slot is a bijection onto the slots with `col < cols`:
      the slot of `k` is a real column and gives back `k`. */
  lemma SlotOfIndex(g: Grid, k: nat)
    requires g.cols > 0
    ensures Column(g, k) < g.cols
    ensures SlotIndex(g, Column(g, k), Row(g, k)) == k
  {
  }

  /** Slot to index and back: a slot with `col < cols` is the slot of its index. */
  lemma IndexOfSlot(g: Grid, col: nat, row: nat)
    requires g.cols > 0 && col < g.cols
    ensures Column(g, SlotIndex(g, col, row)) == col
    ensures Row(g, SlotIndex(g, col, row)) == row
  {
    DivModUnique(SlotIndex(g, col, row), g.cols, row, col);
  }

  /** Distinct indices occupy distinct slots. */
  lemma SlotInjective(g: Grid, k1: nat, k2: nat)
    requires g.cols > 0
    requires Column(g, k1) == Column(g, k2) && Row(g, k1) == Row(g, k2)
    ensures k1 == k2
  {
    SlotOfIndex(g, k1);
    SlotOfIndex(g, k2);
  }

  /** The cell of every image in the list lies wholly inside the canvas. */
  lemma CellInsideCanvas(g: Grid, n: nat, k: nat)
    requires g.cols > 0 && k < n
    ensures CellX(g, k) + g.cellWidth <= CanvasWidth(g)
    ensures CellY(g, k) + g.cellHeight <= CanvasHeight(g, n)
  {
    MulMonotone(Column(g, k), g.cols - 1, StrideX(g));
    assert (g.cols - 1) * StrideX(g) == g.cols * StrideX(g) - StrideX(g);
    var rows := Rows(n, g.cols);
    assert Row(g, k) * g.cols <= k;
    MulCancelLess(Row(g, k), rows, g.cols);
    MulMonotone(Row(g, k), rows - 1, StrideY(g));
    assert (rows - 1) * StrideY(g) == rows * StrideY(g) - StrideY(g);
  }

  /** If a coordinate decomposes as `p + c * s + a` with `a < w <= s`,
      then `c` and `a` are its quotient and remainder. */
  lemma AxisDecode(p: nat, s: nat, w: nat, c: nat, z: int)
    requires 0 < w <= s
    requires c * s + p <= z < c * s + p + w
    ensures (z - p) / s == c && (z - p) % s == z - (c * s + p)
  {
    DivModUnique(z - p, s, c, z - (c * s + p));
  }

  /** Where a pixel in cell `k` sits relative to the grid: past the padding,
      at quotient `Column(k)` and `Row(k)` with remainders inside the cell. */
  lemma InCellDecodes(g: Grid, k: nat, x: int, y: int)
    requires g.cols > 0 && InCell(g, k, x, y)
    ensures g.cellWidth > 0 && g.cellHeight > 0 && x >= g.padding && y >= g.padding
    ensures (x - g.padding) / StrideX(g) == Column(g, k) && (x - g.padding) % StrideX(g) < g.cellWidth
    ensures (y - g.padding) / StrideY(g) == Row(g, k) && (y - g.padding) % StrideY(g) < g.cellHeight
  {
    AxisDecode(g.padding, StrideX(g), g.cellWidth, Column(g, k), x);
    AxisDecode(g.padding, StrideY(g), g.cellHeight, Row(g, k), y);
  }

  /** A pixel past the padding whose remainders fall inside a cell, in a real
      column, lies in the cell of the slot given by its quotients. */
  lemma DecodedInCell(g: Grid, x: int, y: int)
    requires g.cols > 0 && g.cellWidth > 0 && g.cellHeight > 0 && x >= g.padding && y >= g.padding
    requires (x - g.padding) % StrideX(g) < g.cellWidth && (y - g.padding) % StrideY(g) < g.cellHeight
    requires (x - g.padding) / StrideX(g) < g.cols
    ensures InCell(g, SlotIndex(g, (x - g.padding) / StrideX(g), (y - g.padding) / StrideY(g)), x, y)
  {
    var col, row := (x - g.padding) / StrideX(g), (y - g.padding) / StrideY(g);
    IndexOfSlot(g, col, row);
    assert x - g.padding == col * StrideX(g) + (x - g.padding) % StrideX(g);
    assert y - g.padding == row * StrideY(g) + (y - g.padding) % StrideY(g);
  }

  /** The inverse of the cell placement: the index of the image whose cell holds
      pixel (x, y), if any. A cell holds (x, y) exactly when this says so. */
  function CellAt(g: Grid, x: int, y: int): (r: Option<nat>)
    requires g.cols > 0
    ensures r.Some? ==> InCell(g, r.value, x, y)
    ensures forall k: nat :: InCell(g, k, x, y) ==> r == Some(k)
  {
    if g.cellWidth == 0 || g.cellHeight == 0 || x < g.padding || y < g.padding
       || (x - g.padding) % StrideX(g) >= g.cellWidth || (y - g.padding) % StrideY(g) >= g.cellHeight
       || (x - g.padding) / StrideX(g) >= g.cols
    then
      assert forall k: nat :: !InCell(g, k, x, y) by {
        forall k: nat | InCell(g, k, x, y) ensures false {
          InCellDecodes(g, k, x, y);
        }
      }
      None
    else
      var k := SlotIndex(g, (x - g.padding) / StrideX(g), (y - g.padding) / StrideY(g));
      DecodedInCell(g, x, y);
      assert forall k': nat :: InCell(g, k', x, y) ==> k' == k by {
        forall k': nat | InCell(g, k', x, y) ensures k' == k {
          InCellDecodes(g, k', x, y);
          SlotOfIndex(g, k');
        }
      }
      Some(k)
  }

  /** Cells of distinct images are disjoint, so no image is pasted over another. */
  lemma CellsDisjoint(g: Grid, k1: nat, k2: nat, x: int, y: int)
    requires g.cols > 0 && k1 != k2
    ensures !(InCell(g, k1, x, y) && InCell(g, k2, x, y))
  {
    var _ := CellAt(g, x, y);
  }

  // ---------------------------------------------------------------------
  // Worked examples
  // ---------------------------------------------------------------------

  /** With four columns, index 4 wraps to column 0 of row 1, at offset
      (padding, cellHeight + 2 * padding). */
  lemma WrapToNextRow(g: Grid)
    requires g.cols == 4
    ensures Column(g, 4) == 0 && Row(g, 4) == 1
    ensures CellX(g, 4) == g.padding
    ensures CellY(g, 4) == g.cellHeight + 2 * g.padding
  {
  }

  /** The default configuration (800 x 800 cells, padding 10, four columns)
      with three images: a 3250 x 820 canvas, the images in columns 0, 1, 2 of row 0. */
  lemma DefaultGridThreeImages()
    ensures var g := Grid(800, 800, 10, 4);
      CanvasWidth(g) == 3250 && CanvasHeight(g, 3) == 820 &&
      Row(g, 0) == 0 && Row(g, 1) == 0 && Row(g, 2) == 0 &&
      Column(g, 0) == 0 && Column(g, 1) == 1 && Column(g, 2) == 2
  {
    assert Rows(3, 4) == 1;
  }

  /** Zero-size cells, padding 10 and four columns, no images: a 50 x 10 canvas. */
  lemma EmptyGridExample()
    ensures CanvasWidth(Grid(0, 0, 10, 4)) == 50 && CanvasHeight(Grid(0, 0, 10, 4), 0) == 10
  {
  }
}
