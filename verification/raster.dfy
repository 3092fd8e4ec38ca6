/** Pixel grids: rows of pixels, as PIL and numpy lay images out (row = y, column = x). */
module Raster {

  /** One 8-bit channel value. */
  type Channel = c: int | 0 <= c <= 255

  /** An RGBA pixel, the mode every image is converted to on load. */
  datatype Pixel = Pixel(r: Channel, g: Channel, b: Channel, a: Channel)

  /** A raster image: `img[y][x]`. */
  type Image = seq<seq<Pixel>>

  /** Every row of `g` holds exactly `width` entries. */
  predicate IsRect<T>(g: seq<seq<T>>, width: nat)
  {
    forall i :: 0 <= i < |g| ==> |g[i]| == width
  }
}
