/** Pixel values shared by the hex codec and the image comparison. */
module Pixels {
  datatype Option<+T> = None | Some(value: T)

  /** One 8-bit unsigned colour channel, as an image in PIL's "RGB" mode stores it. */
  type Byte = x: int | 0 <= x < 256

  /** One pixel: its red, green and blue channels, in that order. */
  datatype Rgb = Rgb(r: Byte, g: Byte, b: Byte)

  /**
   * A decoded RGB image: its size and its pixels in row-major order (the order of
   * PIL's `getdata()` and of NumPy's array view), pixel (x, y) at index y * width + x.
   */
  datatype Image = Image(width: nat, height: nat, pixels: seq<Rgb>) {
    predicate Valid() { |pixels| == width * height }
  }
}
