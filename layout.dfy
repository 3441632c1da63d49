/**
 * The grid arithmetic of `combine_images`: cell size, canvas size, the walk of
 * the paste offset, and where that walk puts each image.
 */
module Layout {
  import opened Raster

  /** The largest element of a non-empty sequence (Python's `max`). */
  function MaxOf(s: seq<nat>): (m: nat)
    requires |s| > 0
    ensures m in s
    ensures forall k :: 0 <= k < |s| ==> s[k] <= m
  {
    if |s| == 1 then s[0]
    else
      var rest := MaxOf(s[1..]);
      if s[0] >= rest then s[0] else rest
  }

  /** The maximum depends only on the multiset of elements, not on their order. */
  lemma MaxOfIgnoresOrder(s: seq<nat>, t: seq<nat>)
    requires |s| > 0 && multiset(s) == multiset(t)
    ensures |t| > 0 && MaxOf(s) == MaxOf(t)
  {
    assert |t| == |multiset(t)| == |multiset(s)| == |s|;
    var ms, mt := MaxOf(s), MaxOf(t);
    assert ms in multiset(t);
    assert mt in multiset(s);
  }

  /** The number of grid rows, `(n + cols - 1) // cols`. */
  function RowCount(n: nat, cols: nat): (rows: nat)
    requires cols >= 1
    ensures rows * cols >= n
    ensures (rows - 1) * cols < n
  {
    var rows := (n + cols - 1) / cols;
    DivModUnique(n + cols - 1, cols, rows, (n + cols - 1) % cols);
    assert (rows - 1) * cols == rows * cols - cols;
    rows
  }

  function Widths(images: seq<Image>): seq<nat> {
    seq(|images|, k requires 0 <= k < |images| => images[k].width)
  }

  function Heights(images: seq<Image>): seq<nat> {
    seq(|images|, k requires 0 <= k < |images| => images[k].height)
  }

  /**
   * The layout of one call: `count` images in `cols` columns, each cell
   * `cellWidth` by `cellHeight`, with `spacing` pixels between and around cells.
   */
  datatype Grid = Grid(count: nat, cols: nat, spacing: nat, cellWidth: nat, cellHeight: nat) {

    predicate Valid() { cols >= 1 }

    function Rows(): nat
      requires Valid()
    {
      RowCount(count, cols)
    }

    /** The canvas width: `cols` cells, each followed by a gap, after a left margin. */
    function TotalWidth(): (w: nat)
      ensures w >= spacing
      ensures Valid() ==> w >= cellWidth + 2 * spacing
    {
      if cols == 0 then spacing
      else
        MulMono(1, cols, cellWidth + spacing);
        (cellWidth + spacing) * cols + spacing
    }

    /** The canvas height: one band of cell height plus gap per row, after a top margin. */
    function TotalHeight(): (h: nat)
      requires Valid()
      ensures h >= spacing
      ensures count >= 1 ==> h >= cellHeight + 2 * spacing
    {
      var rows := Rows();
      if rows == 0 then spacing
      else
        MulMono(1, rows, cellHeight + spacing);
        (cellHeight + spacing) * rows + spacing
    }

    /** The top-left corner of grid cell i, filled row by row. */
    function Slot(i: nat): Offset
      requires Valid()
    {
      Offset(spacing + (i % cols) * (cellWidth + spacing),
             spacing + (i / cols) * (cellHeight + spacing))
    }

    predicate InCell(i: nat, x: int, y: int)
      requires Valid()
    {
      Slot(i).x <= x < Slot(i).x + cellWidth && Slot(i).y <= y < Slot(i).y + cellHeight
    }

    /**
     * One step of the offset walk: move right a cell, wrapping at the right margin.
     * The new x is either back at the left margin or still left of the right margin.
     */
    function Advance(o: Offset): (r: Offset)
      ensures r == Offset(o.x + cellWidth + spacing, o.y) || r == Offset(spacing, o.y + cellHeight + spacing)
      ensures r.x == spacing || r.x < TotalWidth() - spacing
    {
      var x := o.x + cellWidth + spacing;
      if x >= TotalWidth() - spacing then Offset(spacing, o.y + cellHeight + spacing)
      else Offset(x, o.y)
    }

    /** The offset at which the k-th image (from 0) is pasted. */
    function OffsetAfter(k: nat): (o: Offset)
      ensures spacing <= o.x && spacing <= o.y
      ensures o.x == spacing || o.x < TotalWidth() - spacing
    {
      if k == 0 then Offset(spacing, spacing) else Advance(OffsetAfter(k - 1))
    }

    /** The offsets of the first n pastes, in paste order. */
    function Placements(n: nat): seq<Offset> {
      seq(n, k requires 0 <= k < n => OffsetAfter(k))
    }
  }

  /** The layout `combine_images` computes from its decoded inputs. */
  function GridOf(images: seq<Image>, cols: nat, spacing: nat): (g: Grid)
    requires |images| > 0
    ensures g.count == |images| && g.cols == cols && g.spacing == spacing
    ensures forall k :: 0 <= k < |images| ==>
      images[k].width <= g.cellWidth && images[k].height <= g.cellHeight
    ensures exists k :: 0 <= k < |images| && images[k].width == g.cellWidth
    ensures exists k :: 0 <= k < |images| && images[k].height == g.cellHeight
  {
    var ws, hs := Widths(images), Heights(images);
    var g := Grid(|images|, cols, spacing, MaxOf(ws), MaxOf(hs));
    assert forall k :: 0 <= k < |images| ==> ws[k] == images[k].width && hs[k] == images[k].height;
    g
  }

  /** The layout depends only on how many images of each width and height there are. */
  lemma GridIgnoresOrder(a: seq<Image>, b: seq<Image>, cols: nat, spacing: nat)
    requires |a| > 0
    requires multiset(Widths(a)) == multiset(Widths(b))
    requires multiset(Heights(a)) == multiset(Heights(b))
    ensures |b| > 0 && GridOf(a, cols, spacing) == GridOf(b, cols, spacing)
  {
    assert |Widths(b)| == |multiset(Widths(b))| == |multiset(Widths(a))| == |a|;
    MaxOfIgnoresOrder(Widths(a), Widths(b));
    MaxOfIgnoresOrder(Heights(a), Heights(b));
  }

  // ---- arithmetic helpers ----

  lemma MulMono(a: nat, b: nat, m: nat)
    requires a <= b
    ensures a * m <= b * m
  {
    assert b * m == a * m + (b - a) * m;
  }

  lemma MulSucc(a: nat, m: nat)
    ensures (a + 1) * m == a * m + m
  {
  }

  lemma DivModUnique(k: int, c: int, q: int, r: int)
    requires c >= 1 && 0 <= r < c && k == c * q + r
    ensures k / c == q && k % c == r
  {
    var q', r' := k / c, k % c;
    assert c * (q' - q) == r - r';
    if q' > q {
      MulMono(1, q' - q, c);
    } else if q' < q {
      MulMono(1, q - q', c);
    }
  }

  /** How `i % c` and `i / c` change when i grows by one. */
  lemma DivModNext(k: nat, c: nat)
    requires c >= 1
    ensures k % c + 1 == c ==> (k + 1) % c == 0 && (k + 1) / c == k / c + 1
    ensures k % c + 1 < c ==> (k + 1) % c == k % c + 1 && (k + 1) / c == k / c
  {
    if k % c + 1 == c {
      DivModUnique(k + 1, c, k / c + 1, 0);
    } else {
      DivModUnique(k + 1, c, k / c, k % c + 1);
    }
  }

  // ---- the offset walk ----

  /** One step of the walk moves from cell i to cell i + 1 when cells are at least one pixel wide. */
  lemma AdvanceSlot(g: Grid, i: nat)
    requires g.Valid() && g.cellWidth >= 1
    ensures g.Advance(g.Slot(i)) == g.Slot(i + 1)
  {
    var cols, s := g.cols, g.spacing;
    var c, q := i % cols, i / cols;
    var step, rise := g.cellWidth + s, g.cellHeight + s;
    var o := g.Slot(i);
    assert o == Offset(s + c * step, s + q * rise);
    var nx := o.x + g.cellWidth + s;
    MulSucc(c, step);
    assert nx == s + (c + 1) * step;
    assert g.TotalWidth() - s == cols * step;
    DivModNext(i, cols);
    if c + 1 == cols {
      MulSucc(q, rise);
      assert g.Advance(o) == Offset(s, o.y + rise);
      assert g.Slot(i + 1) == Offset(s + 0 * step, s + (q + 1) * rise);
    } else {
      MulMono(c + 1, cols - 1, step);
      MulSucc(cols - 1, step);
      assert nx < cols * step;
      assert g.Advance(o) == Offset(nx, o.y);
      assert g.Slot(i + 1) == Offset(s + (c + 1) * step, s + q * rise);
    }
  }

  /**
   * With cells at least one pixel wide, the walk that starts at
   * (spacing, spacing) and wraps at `TotalWidth() - spacing` puts image k in
   * column `k % cols` and row `k / cols`.
   */
  lemma {:induction false} OffsetAfterIsSlot(g: Grid, k: nat)
    requires g.Valid() && g.cellWidth >= 1
    ensures g.OffsetAfter(k) == g.Slot(k)
  {
    if k == 0 {
      DivModUnique(0, g.cols, 0, 0);
    } else {
      OffsetAfterIsSlot(g, k - 1);
      AdvanceSlot(g, k - 1);
    }
  }

  /**
   * Where the walk would put image k if every row held `cols - 1` images: the
   * layout it produces for zero-width cells.
   */
  function ShortRowSlot(g: Grid, k: nat): Offset
    requires g.cols >= 2
  {
    Offset(g.spacing + (k % (g.cols - 1)) * g.spacing,
           g.spacing + (k / (g.cols - 1)) * (g.cellHeight + g.spacing))
  }

  lemma AdvanceShortRowSlot(g: Grid, k: nat)
    requires g.cols >= 2 && g.cellWidth == 0 && g.spacing >= 1
    ensures g.Advance(ShortRowSlot(g, k)) == ShortRowSlot(g, k + 1)
  {
    var c := g.cols - 1;
    var r, q := k % c, k / c;
    var s, rise := g.spacing, g.cellHeight + g.spacing;
    var rx, qy := r * s, q * rise;
    assert ShortRowSlot(g, k) == Offset(s + rx, s + qy);
    assert g.TotalWidth() - s == g.cols * s;
    DivModNext(k, c);
    assert rx + s == (r + 1) * s;
    if r + 1 == c {
      assert (r + 2) * s == g.cols * s;
      assert qy + rise == (q + 1) * rise;
      assert 0 * s == 0;
    } else {
      MulMono(r + 2, g.cols - 1, s);
      assert (g.cols - 1) * s == g.cols * s - s;
      assert (r + 2) * s == (r + 1) * s + s;
    }
  }

  /**
   * Zero-width cells: when every image is zero pixels wide and the spacing is
   * positive, the wrap test fires one column early, so each row holds
   * `cols - 1` images instead of `cols`.
   */
  lemma {:induction false} ZeroWidthWalk(g: Grid, k: nat)
    requires g.cols >= 2 && g.cellWidth == 0 && g.spacing >= 1
    ensures g.OffsetAfter(k) == ShortRowSlot(g, k)
  {
    if k == 0 {
      DivModUnique(0, g.cols - 1, 0, 0);
    } else {
      ZeroWidthWalk(g, k - 1);
      AdvanceShortRowSlot(g, k - 1);
    }
  }

  /** One column of zero-width cells: every image wraps, which is what the slot formula says. */
  lemma {:induction false} ZeroWidthOneColumn(g: Grid, k: nat)
    requires g.cols == 1 && g.cellWidth == 0
    ensures g.OffsetAfter(k) == g.Slot(k)
  {
    DivModUnique(k, 1, k, 0);
    if k > 0 {
      ZeroWidthOneColumn(g, k - 1);
      DivModUnique(k - 1, 1, k - 1, 0);
      MulSucc(k - 1, g.cellHeight + g.spacing);
    }
  }

  /**
   * Zero-width cells and no spacing: the canvas is zero pixels wide, the wrap
   * test fires after every image, and image k lands at (0, k * cellHeight).
   */
  lemma {:induction false} ZeroWidthZeroSpacing(g: Grid, k: nat)
    requires g.cellWidth == 0 && g.spacing == 0
    ensures g.OffsetAfter(k) == Offset(0, k * g.cellHeight)
  {
    if k > 0 {
      ZeroWidthZeroSpacing(g, k - 1);
      MulSucc(k - 1, g.cellHeight);
    }
  }

  /** With two columns and zero-width images, the second image starts a new row. */
  lemma ZeroWidthSecondImageWraps(g: Grid)
    requires g.cols == 2 && g.cellWidth == 0 && g.spacing >= 1
    ensures g.OffsetAfter(1) == Offset(g.spacing, 2 * g.spacing + g.cellHeight)
    ensures g.OffsetAfter(1) != g.Slot(1)
  {
  }

  // ---- where the cells are ----

  /** Column `i % cols` ends, with its right margin, within the canvas width. */
  lemma SlotFitsAcross(g: Grid, i: nat)
    requires g.Valid()
    ensures g.Slot(i).x + g.cellWidth + g.spacing <= g.TotalWidth()
  {
    var c, step := g.cols, g.cellWidth + g.spacing;
    var col := i % c;
    MulMono(col, c - 1, step);
    assert (c - 1) * step + step == c * step;
  }

  /** Image i < n of n lies in a row before the ceiling of n / c. */
  lemma RowBeforeCount(i: nat, n: nat, c: nat, rows: nat)
    requires c >= 1 && i < n && rows * c >= n
    ensures i / c < rows
  {
    var row := i / c;
    assert row * c <= i by {
      assert i == c * row + i % c;
    }
    if rows <= row {
      MulMono(rows, row, c);
    }
  }

  /** Row `i / cols` of an image that exists ends, with its bottom margin, within the canvas height. */
  lemma SlotFitsDown(g: Grid, i: nat)
    requires g.Valid() && i < g.count
    ensures g.Slot(i).y + g.cellHeight + g.spacing <= g.TotalHeight()
  {
    var rows, row, rise := g.Rows(), i / g.cols, g.cellHeight + g.spacing;
    assert g.Slot(i).y == g.spacing + row * rise;
    assert g.TotalHeight() == rows * rise + g.spacing;
    RowBeforeCount(i, g.count, g.cols, rows);
    GapBetween(row, rows, rise);
  }

  /** A cell, and so every image no larger than it, lies inside the canvas. */
  lemma SlotFits(g: Grid, i: nat)
    requires g.Valid() && i < g.count
    ensures g.Slot(i).x + g.cellWidth + g.spacing <= g.TotalWidth()
    ensures g.Slot(i).y + g.cellHeight + g.spacing <= g.TotalHeight()
  {
    SlotFitsAcross(g, i);
    SlotFitsDown(g, i);
  }

  lemma GapBetween(a: nat, b: nat, step: nat)
    requires a < b
    ensures a * step + step <= b * step
  {
    MulMono(a + 1, b, step);
  }

  /** Cells in different columns share no x coordinate. */
  lemma ColumnsApart(g: Grid, i: nat, j: nat, x: int)
    requires g.Valid() && i % g.cols < j % g.cols
    ensures !(g.Slot(i).x <= x < g.Slot(i).x + g.cellWidth && g.Slot(j).x <= x)
  {
    var step := g.cellWidth + g.spacing;
    GapBetween(i % g.cols, j % g.cols, step);
    assert g.Slot(i).x + step <= g.Slot(j).x;
  }

  /** Cells in different rows share no y coordinate. */
  lemma RowsApart(g: Grid, i: nat, j: nat, y: int)
    requires g.Valid() && i / g.cols < j / g.cols
    ensures !(g.Slot(i).y <= y < g.Slot(i).y + g.cellHeight && g.Slot(j).y <= y)
  {
    var rise := g.cellHeight + g.spacing;
    GapBetween(i / g.cols, j / g.cols, rise);
    assert g.Slot(i).y + rise <= g.Slot(j).y;
  }

  /** Distinct cells share no pixel. */
  lemma CellsDisjoint(g: Grid, i: nat, j: nat, x: int, y: int)
    requires g.Valid() && i != j
    ensures !(g.InCell(i, x, y) && g.InCell(j, x, y))
  {
    var c := g.cols;
    if i % c < j % c {
      ColumnsApart(g, i, j, x);
    } else if j % c < i % c {
      ColumnsApart(g, j, i, x);
    } else if i / c < j / c {
      RowsApart(g, i, j, y);
    } else if j / c < i / c {
      RowsApart(g, j, i, y);
    }
  }
}
