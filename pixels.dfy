/** Pixels and RGB images, as the search engine reads them. */
module Pixels {

  /** One 8-bit channel value. */
  newtype byte = x: int | 0 <= x < 256

  /** n clamped to 255: the saturating `as u8` cast of a non-negative value, and the
      `if psumm <= 255 { psumm } else { 255 }` of the merge. */
  function Clamp(n: nat): byte {
    if n <= 255 then n as byte else 255
  }

  /** An RGB pixel with 8-bit channels. */
  datatype Rgb = Rgb(r: byte, g: byte, b: byte)

  /** An RGB image; `rows[y][x]` is the pixel in column x of row y. */
  datatype Image = Image(width: nat, height: nat, rows: seq<seq<Rgb>>)
  {
    /** The rows agree with the stated dimensions. */
    ghost predicate Valid() {
      |rows| == height && forall y :: 0 <= y < height ==> |rows[y]| == width
    }

    /** The pixel at column x, row y (`get_pixel(x, y)`). */
    function At(x: nat, y: nat): Rgb
      requires Valid() && x < width && y < height
    {
      rows[y][x]
    }
  }
}
