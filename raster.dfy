/** The encoder's inputs once the image library has done its work: a raster of
    palette indices (indexed mode) or of 24-bit colours (HAM mode), and a palette. */
module Raster {

  /** One colour as the image library reports it; each channel is normally 0..255. */
  datatype Rgb = Rgb(r: nat, g: nat, b: nat)

  /** A `width` x `height` raster, stored row by row (`pixels[y][x]`). */
  datatype Image<T> = Image(width: nat, height: nat, pixels: seq<seq<T>>)
  {
    /** Every one of the `height` rows holds exactly `width` pixels. */
    predicate Valid()
    {
      |pixels| == height && forall y :: 0 <= y < height ==> |pixels[y]| == width
    }
  }
}
