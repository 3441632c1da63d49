# Image grid compositor

A Dafny model of `ImageComposer.combine_images` from the image_maker desktop
application. The routine takes decoded images in order, plus a column count and a
spacing. It makes one black RGB canvas and pastes the images into a grid of equal
cells, left to right and top to bottom.

- `raster.dfy` (module `Raster`) holds the pixel, the decoded image (`rows[y][x]`),
  the paste offset and the `Covers` predicate, which tells which canvas points an
  image pasted at an offset would occupy.
- `layout.dfy` (module `Layout`) holds the arithmetic as pure functions. The cell
  size is the largest width and the largest height (`MaxOf`). The row count is the
  ceiling division (`RowCount`). `Grid` gives the canvas width and height and the
  slot of every cell. The offset walk of the paste loop is `Grid.Advance` and
  `Grid.OffsetAfter`; they keep the source's exact wrap test
  `x_offset >= total_width - spacing`.
- `compositor.dfy` (module `Compositor`) holds the imperative part. `Paste` copies an
  image into an `array2` canvas (indexed `canvas[y, x]`) and cuts off whatever falls
  outside, as PIL's `paste` does. `CombineImages` checks the inputs, sizes and
  allocates the black canvas, and hands it to `PasteAll`, which is the source's paste
  loop. The loop invariants tie `x_offset`/`y_offset` to `OffsetAfter(i)`, and tie
  the canvas to `PixelAfter`, which gives the pixel after the first `i` pastes.
  The lemmas then show what the finished canvas holds. Every source pixel is
  unchanged at the image's own slot. Slots follow `i % cols` and `i / cols`. Nothing
  is clipped, cells never overlap, and every uncovered point stays black.

The two error paths of the source are `Failure(EmptyInput)` and
`Failure(ZeroColumns)`:
- An empty list fails when the sizes are unpacked (index.py:134).
- `cols == 0` fails at the division (index.py:141).

The empty-list check comes first, as it does in the source. The two failures
happen at different points of the code, so the model keeps them as two errors.

When every image has width zero, the wrap test at index.py:149 no longer matches
the slot formula in every case:
- With a positive spacing and at least two columns, the test fires one column
  early, so each row holds `cols - 1` images (`ZeroWidthWalk`).
- With one column, it fires after every image, which is what the slot formula
  says anyway (`ZeroWidthOneColumn`).
- With spacing 0, the canvas is zero pixels wide and the test fires after every
  image, so image k is at `(0, k * cellHeight)` whatever `cols` is
  (`ZeroWidthZeroSpacing`).

None of this can be seen on the canvas, because a zero-width image paints no pixel
(`SourcePixelKept` has `dx < width` as a precondition, so its claim holds for all
inputs). The slot formula (`OffsetAfterIsSlot`) and the "whole rectangle fits"
statement (`PlacedAtSlot`) therefore require `cellWidth >= 1`.

## Model

| member | source | states |
|---|---|---|
| `Layout.MaxOf` | index.py:138-140 | the result is one of the inputs and no input exceeds it (Python's `max`) |
| `Layout.MaxOfIgnoresOrder` | index.py:138-140 | two sequences with the same multiset of values have the same maximum |
| `Layout.RowCount` | index.py:141 | `(n + cols - 1) // cols` is the ceiling of n / cols: `rows * cols >= n` and `(rows - 1) * cols < n` |
| `Layout.GridOf` | index.py:134-140 | the cell is as wide as the widest image and as tall as the tallest: every image fits in it, and some image reaches each bound |
| `Layout.Grid.TotalWidth` | index.py:139 | the canvas width `(cellWidth + spacing) * cols + spacing`; it is at least `spacing`, and with one column or more at least one cell plus both margins |
| `Layout.Grid.TotalHeight` | index.py:141 | the canvas height `(cellHeight + spacing) * rows + spacing`; it is at least `spacing`, and with one image or more at least one cell plus both margins |
| `Layout.Grid.Advance` | index.py:148-151 | one offset step: either one cell to the right on the same row, or back to x = spacing one cell lower; the new x is left of `total_width - spacing` unless it is back at the left margin |
| `Layout.Grid.OffsetAfter` | index.py:145-151 | the offset of the k-th paste, starting at `(spacing, spacing)`; both coordinates are at least `spacing`, and x is at the left margin or left of `total_width - spacing` |
| `Layout.GridIgnoresOrder` | index.py:134-141 | the layout, and so the canvas size, depends only on the multisets of widths and heights, not on input order |
| `Layout.AdvanceSlot` | index.py:148-151 | with cells at least one pixel wide, one offset step moves from the slot of image i to the slot of image i + 1, wrapping after the last column |
| `Layout.OffsetAfterIsSlot` | index.py:145-151 | with cells at least one pixel wide, image k is pasted at `(s + (k % cols) * (w + s), s + (k / cols) * (h + s))`; image 0 is at `(s, s)` |
| `Layout.AdvanceShortRowSlot` | index.py:148-151 | with zero-width cells and positive spacing, one offset step moves along a grid of `cols - 1` columns |
| `Layout.ZeroWidthWalk` | index.py:145-151 | with zero-width cells, positive spacing and at least two columns, the walk puts image k in column `k % (cols - 1)` and row `k / (cols - 1)` |
| `Layout.ZeroWidthOneColumn` | index.py:145-151 | with one column of zero-width cells, the walk still puts image k at its slot |
| `Layout.ZeroWidthZeroSpacing` | index.py:139-151 | with zero-width cells and spacing 0, the walk puts image k at `(0, k * cellHeight)` |
| `Layout.ZeroWidthSecondImageWraps` | index.py:148-151 | with two columns of zero-width cells, the second image starts a new row instead of taking slot 1 |
| `Layout.SlotFits` | index.py:138-141 | each of the first N cells, with its right and bottom margin, lies within the canvas width and height |
| `Layout.CellsDisjoint` | index.py:139-151 | two distinct cells share no pixel |
| `Compositor.Paste` | index.py:147 | the canvas holds the image's pixels where the image covers it and the old pixels elsewhere; parts off the canvas are dropped |
| `Compositor.PasteAll` | index.py:145-151 | starting from an all-black canvas as wide as the grid, pasting every image at the walked offsets leaves the canvas equal to `PixelAfter` of all N pastes |
| `Compositor.CombineImages` | index.py:131-156 | empty input gives `EmptyInput`; otherwise `cols == 0` gives `ZeroColumns`; otherwise a fresh canvas of height `(maxH + s) * ceil(N / cols) + s` and width `(maxW + s) * cols + s` holding `PixelAfter` of all N pastes at the walked offsets |
| `Compositor.PixelAfter` | index.py:143-151 | the canvas pixel after the first k pastes onto the black canvas: the last pasted image that covers the point supplies it, otherwise it is black |
| `Compositor.PixelFromSomeImage` | index.py:143-151 | every canvas pixel is black or a pixel of a pasted image that covers the point, taken at the matching position inside that image |
| `Compositor.UncoveredIsBlack` | index.py:143-147 | a point that no pasted image covers keeps the initial black |
| `Compositor.KeptAfter` | index.py:146-151 | after image i is pasted, later pastes leave each of its pixels unchanged |
| `Compositor.SourcePixelKept` | index.py:138-151 | in the finished canvas, pixel (dx, dy) of image i is at its slot plus (dx, dy), lies inside the canvas and is unchanged |
| `Compositor.PlacedAtSlot` | index.py:138-151 | with cells at least one pixel wide, image i is pasted at its slot and its whole rectangle lies inside the canvas |
| `Compositor.EmptySlotIsBlack` | index.py:141-151 | every point of a cell past the last image, such as an empty slot in a short last row, stays black |
| `Compositor.SingleImage` | index.py:138-145 | one image in one column gives a canvas `2 * spacing` larger in each direction, with the image at `(spacing, spacing)` |
| `Compositor.MixedSizes` | index.py:138-151 | sizes (10,10), (20,10), (10,30) with two columns and spacing 5 give a 55 by 75 canvas with images at (5,5), (30,5), (5,40); slot (30,40) is empty and its corner pixel stays black |

## Left out

- The wxPython interface: the frame, panels, sizers, menu, buttons, event handlers, centred painting and preview refresh (index.py:10-28, 51-129, 158-185). These are toolkit calls with no logic of their own.
- `MyListCtrl` (index.py:30-48). Its path dictionary is keyed by indices that come from the toolkit's `InsertItem`.
- Decoding files with `Image.open` (index.py:133). Inputs are taken as already-decoded rasters. A file that cannot be decoded is therefore not an error of this model.
- PIL's mode conversion inside `paste` (alpha, palette and grey modes). A pixel is copied as an opaque value.
- The conversion of the result to a `wx.Image` via `tobytes`/`SetData` (index.py:152-155). The model returns the canvas itself.
- Computing `cols` as `round(sqrt(N))` in the caller (index.py:163). That is floating-point math; `cols` is a parameter. The caller's non-empty guard (index.py:162) belongs to the interface layer.
- Negative `cols` or `spacing`: both are natural numbers in the model, so the outcome of PIL's size check on a negative canvas size is not modelled.
- Saving to `saved_image.jpg`, the message box and the temporary icon file (index.py:55-65, 166-170). These are file I/O.
- The `print` calls (index.py:135-136, 142, 153, 155).
- The default argument values `cols=2, spacing=5`: callers of the model pass both explicitly.
