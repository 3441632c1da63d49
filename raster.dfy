/** Decoded rasters: the pixels the compositor copies and the images it reads. */
module Raster {

  newtype Byte = x: int | 0 <= x < 256

  /** An RGB pixel; the compositor copies pixels without inspecting them. */
  datatype Pixel = Rgb(r: Byte, g: Byte, b: Byte)

  /** The colour a new canvas is filled with. */
  const Black: Pixel := Rgb(0, 0, 0)

  /** A decoded source image: `rows[y][x]` is the pixel in column x of row y. */
  datatype Image = Image(width: nat, height: nat, rows: seq<seq<Pixel>>) {

    /** The pixel grid has the size the image claims. */
    predicate Valid() {
      |rows| == height && forall y :: 0 <= y < |rows| ==> |rows[y]| == width
    }

    function At(x: nat, y: nat): Pixel
      requires Valid() && x < width && y < height
    {
      rows[y][x]
    }
  }

  predicate AllValid(images: seq<Image>) {
    forall k :: 0 <= k < |images| ==> images[k].Valid()
  }

  /** A top-left corner on the canvas, in pixels. */
  datatype Offset = Offset(x: nat, y: nat)

  /** Canvas point (x, y) lies inside `img` when its top-left corner is at `at`. */
  predicate Covers(img: Image, at: Offset, x: int, y: int) {
    at.x <= x < at.x + img.width && at.y <= y < at.y + img.height
  }
}
