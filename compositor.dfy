/**
 * `ImageComposer.combine_images`: a black canvas sized from the layout, onto
 * which the decoded images are pasted one by one while the paste offset walks
 * across the grid.
 */
module Compositor {
  import opened Raster
  import opened Layout

  datatype ComposeError =
    | EmptyInput   // no images: unpacking the sizes fails
    | ZeroColumns  // cols == 0: the row count divides by zero

  datatype Result<T> = Success(value: T) | Failure(error: ComposeError)

  /**
   * The canvas pixel at (x, y) after the first k images have been pasted, image
   * j at `at[j]`, onto an all-black canvas; a later paste overwrites an earlier one.
   */
  function PixelAfter(images: seq<Image>, at: seq<Offset>, k: nat, x: int, y: int): Pixel
    requires AllValid(images) && k <= |images| && k <= |at|
  {
    if k == 0 then Black
    else if Covers(images[k - 1], at[k - 1], x, y) then images[k - 1].At(x - at[k - 1].x, y - at[k - 1].y)
    else PixelAfter(images, at, k - 1, x, y)
  }

  /**
   * Copies `img` onto `canvas` with its top-left corner at `at`; the parts that
   * fall outside the canvas are cut off.
   */
  method Paste(canvas: array2<Pixel>, img: Image, at: Offset)
    requires img.Valid()
    modifies canvas
    ensures forall y, x :: 0 <= y < canvas.Length0 && 0 <= x < canvas.Length1 ==>
      canvas[y, x] == if Covers(img, at, x, y) then img.At(x - at.x, y - at.y) else old(canvas[y, x])
  {
    var dy := 0;
    while dy < img.height
      invariant 0 <= dy <= img.height
      invariant forall y, x :: 0 <= y < canvas.Length0 && 0 <= x < canvas.Length1 ==>
        canvas[y, x] == if Covers(img, at, x, y) && y < at.y + dy then img.At(x - at.x, y - at.y)
                        else old(canvas[y, x])
    {
      var dx := 0;
      while dx < img.width
        invariant 0 <= dx <= img.width
        invariant forall y, x :: 0 <= y < canvas.Length0 && 0 <= x < canvas.Length1 ==>
          canvas[y, x] == if Covers(img, at, x, y) && (y < at.y + dy || (y == at.y + dy && x < at.x + dx))
                          then img.At(x - at.x, y - at.y)
                          else old(canvas[y, x])
      {
        if at.y + dy < canvas.Length0 && at.x + dx < canvas.Length1 {
          canvas[at.y + dy, at.x + dx] := img.rows[dy][dx];
        }
        dx := dx + 1;
      }
      dy := dy + 1;
    }
  }

  /**
   * The paste loop: pastes `images` in order while the offset walks the grid,
   * starting at (spacing, spacing) and wrapping once it reaches the right margin.
   */
  method PasteAll(canvas: array2<Pixel>, images: seq<Image>, g: Grid)
    requires AllValid(images)
    requires canvas.Length1 == g.TotalWidth()
    requires forall y, x :: 0 <= y < canvas.Length0 && 0 <= x < canvas.Length1 ==> canvas[y, x] == Black
    modifies canvas
    ensures forall y, x :: 0 <= y < canvas.Length0 && 0 <= x < canvas.Length1 ==>
      canvas[y, x] == PixelAfter(images, g.Placements(|images|), |images|, x, y)
  {
    ghost var at := g.Placements(|images|);
    var totalWidth := canvas.Length1;
    var x: nat, y: nat := g.spacing, g.spacing;
    var i := 0;
    while i < |images|
      invariant 0 <= i <= |images|
      invariant Offset(x, y) == g.OffsetAfter(i)
      invariant forall py, px :: 0 <= py < canvas.Length0 && 0 <= px < canvas.Length1 ==>
        canvas[py, px] == PixelAfter(images, at, i, px, py)
    {
      Paste(canvas, images[i], Offset(x, y));
      x := x + g.cellWidth + g.spacing;
      if x >= totalWidth - g.spacing {
        x := g.spacing;
        y := y + g.cellHeight + g.spacing;
      }
      i := i + 1;
    }
  }

  /**
   * Lays `images` out in `cols` columns with `spacing` pixels around each cell.
   * The canvas is indexed `canvas[y, x]`.
   */
  method CombineImages(images: seq<Image>, cols: nat, spacing: nat) returns (result: Result<array2<Pixel>>)
    requires AllValid(images)
    ensures |images| == 0 ==> result == Failure(EmptyInput)
    ensures |images| > 0 && cols == 0 ==> result == Failure(ZeroColumns)
    ensures |images| > 0 && cols >= 1 ==> result.Success?
    ensures result.Success? ==>
      var canvas, g := result.value, GridOf(images, cols, spacing);
      fresh(canvas) && g.Valid() &&
      canvas.Length0 == g.TotalHeight() && canvas.Length1 == g.TotalWidth() &&
      forall y, x :: 0 <= y < canvas.Length0 && 0 <= x < canvas.Length1 ==>
        canvas[y, x] == PixelAfter(images, g.Placements(|images|), |images|, x, y)
  {
    if |images| == 0 {
      return Failure(EmptyInput);
    }
    var g := GridOf(images, cols, spacing);
    var totalWidth := g.TotalWidth();
    if cols == 0 {
      return Failure(ZeroColumns);
    }
    var totalHeight := g.TotalHeight();
    var canvas := new Pixel[totalHeight, totalWidth]((y, x) => Black);
    PasteAll(canvas, images, g);
    return Success(canvas);
  }

  // ---- what the finished canvas holds ----

  /** Every canvas pixel is black or a pixel of one of the pasted images that covers it. */
  lemma {:induction false} PixelFromSomeImage(images: seq<Image>, at: seq<Offset>, k: nat, x: int, y: int)
    requires AllValid(images) && k <= |images| && k <= |at|
    ensures var p := PixelAfter(images, at, k, x, y);
      p == Black ||
      exists j :: 0 <= j < k && Covers(images[j], at[j], x, y) && p == images[j].At(x - at[j].x, y - at[j].y)
  {
    if k > 0 && !Covers(images[k - 1], at[k - 1], x, y) {
      PixelFromSomeImage(images, at, k - 1, x, y);
    }
  }

  /** A point no pasted image covers keeps the canvas's initial black. */
  lemma {:induction false} UncoveredIsBlack(images: seq<Image>, at: seq<Offset>, k: nat, x: int, y: int)
    requires AllValid(images) && k <= |images| && k <= |at|
    requires forall j :: 0 <= j < k ==> !Covers(images[j], at[j], x, y)
    ensures PixelAfter(images, at, k, x, y) == Black
  {
    if k > 0 {
      UncoveredIsBlack(images, at, k - 1, x, y);
    }
  }

  /** Pasted at its slot, image i covers only points of its own cell. */
  lemma CoverInCell(img: Image, g: Grid, i: nat, x: int, y: int)
    requires g.Valid() && img.width <= g.cellWidth && img.height <= g.cellHeight
    requires Covers(img, g.Slot(i), x, y)
    ensures g.InCell(i, x, y)
  {
  }

  /** Later pastes, each in its own cell, leave the pixels of image i alone. */
  lemma {:induction false} KeptAfter(images: seq<Image>, cols: nat, spacing: nat, k: nat, i: nat, dx: nat, dy: nat)
    requires AllValid(images) && cols >= 1 && i < k <= |images|
    requires dx < images[i].width && dy < images[i].height
    ensures var g := GridOf(images, cols, spacing);
      PixelAfter(images, g.Placements(|images|), k, g.Slot(i).x + dx, g.Slot(i).y + dy) == images[i].At(dx, dy)
  {
    var g := GridOf(images, cols, spacing);
    var x, y := g.Slot(i).x + dx, g.Slot(i).y + dy;
    OffsetAfterIsSlot(g, k - 1);
    assert g.Placements(|images|)[k - 1] == g.Slot(k - 1);
    if k - 1 != i {
      if Covers(images[k - 1], g.Slot(k - 1), x, y) {
        CoverInCell(images[k - 1], g, k - 1, x, y);
        CellsDisjoint(g, i, k - 1, x, y);
      }
      KeptAfter(images, cols, spacing, k - 1, i, dx, dy);
    }
  }

  /**
   * Every pixel of every image appears unchanged in the finished canvas, in
   * column `i % cols` and row `i / cols` of the grid, and inside the canvas.
   */
  lemma SourcePixelKept(images: seq<Image>, cols: nat, spacing: nat, i: nat, dx: nat, dy: nat)
    requires AllValid(images) && cols >= 1 && i < |images|
    requires dx < images[i].width && dy < images[i].height
    ensures var g := GridOf(images, cols, spacing);
      var x, y := g.Slot(i).x + dx, g.Slot(i).y + dy;
      x < g.TotalWidth() && y < g.TotalHeight() &&
      PixelAfter(images, g.Placements(|images|), |images|, x, y) == images[i].At(dx, dy)
  {
    var g := GridOf(images, cols, spacing);
    SlotFits(g, i);
    KeptAfter(images, cols, spacing, |images|, i, dx, dy);
  }

  /**
   * With cells at least one pixel wide, image i is pasted at its slot, and the
   * whole image lies inside the canvas.
   */
  lemma PlacedAtSlot(images: seq<Image>, cols: nat, spacing: nat, i: nat)
    requires |images| > 0 && cols >= 1 && i < |images|
    requires GridOf(images, cols, spacing).cellWidth >= 1
    ensures var g := GridOf(images, cols, spacing);
      g.OffsetAfter(i) == g.Slot(i) &&
      g.Slot(i).x + images[i].width <= g.TotalWidth() &&
      g.Slot(i).y + images[i].height <= g.TotalHeight()
  {
    var g := GridOf(images, cols, spacing);
    OffsetAfterIsSlot(g, i);
    SlotFits(g, i);
  }

  /**
   * A point in a cell that no image fills (a slot past the last image, as in a
   * short last row) stays black.
   */
  lemma EmptySlotIsBlack(images: seq<Image>, cols: nat, spacing: nat, j: nat, x: int, y: int)
    requires AllValid(images) && |images| > 0 && cols >= 1 && |images| <= j
    requires GridOf(images, cols, spacing).InCell(j, x, y)
    ensures var g := GridOf(images, cols, spacing);
      PixelAfter(images, g.Placements(|images|), |images|, x, y) == Black
  {
    var g := GridOf(images, cols, spacing);
    var at := g.Placements(|images|);
    forall i | 0 <= i < |images|
      ensures !Covers(images[i], at[i], x, y)
    {
      OffsetAfterIsSlot(g, i);
      if Covers(images[i], at[i], x, y) {
        CoverInCell(images[i], g, i, x, y);
        CellsDisjoint(g, i, j, x, y);
      }
    }
    UncoveredIsBlack(images, at, |images|, x, y);
  }

  // ---- worked examples ----

  /** One image in one column: a canvas `spacing` larger on every side, the image at (spacing, spacing). */
  lemma SingleImage(img: Image, spacing: nat)
    ensures var g := GridOf([img], 1, spacing);
      g.TotalWidth() == img.width + 2 * spacing &&
      g.TotalHeight() == img.height + 2 * spacing &&
      g.OffsetAfter(0) == Offset(spacing, spacing)
  {
    var g := GridOf([img], 1, spacing);
    assert g.cellWidth == img.width && g.cellHeight == img.height;
  }

  /** Sizes (10,10), (20,10), (10,30) in two columns with spacing 5. */
  lemma MixedSizes(images: seq<Image>)
    requires AllValid(images) && |images| == 3
    requires images[0].width == 10 && images[0].height == 10
    requires images[1].width == 20 && images[1].height == 10
    requires images[2].width == 10 && images[2].height == 30
    ensures var g := GridOf(images, 2, 5);
      g.cellWidth == 20 && g.cellHeight == 30 && g.Rows() == 2 &&
      g.TotalWidth() == 55 && g.TotalHeight() == 75 &&
      g.OffsetAfter(0) == Offset(5, 5) &&
      g.OffsetAfter(1) == Offset(30, 5) &&
      g.OffsetAfter(2) == Offset(5, 40) &&
      g.Slot(3) == Offset(30, 40) &&
      PixelAfter(images, g.Placements(3), 3, 30, 40) == Black
  {
    var g := GridOf(images, 2, 5);
    assert Widths(images) == [10, 20, 10];
    assert Heights(images) == [10, 10, 30];
    assert g.cellWidth == 20 && g.cellHeight == 30;
    assert g.OffsetAfter(1) == Offset(30, 5);
    assert PixelAfter(images, g.Placements(3), 3, 30, 40) == Black by {
      assert g.InCell(3, 30, 40);
      EmptySlotIsBlack(images, 2, 5, 3, 30, 40);
    }
  }
}
