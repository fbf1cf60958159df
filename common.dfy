/** Types shared by every codec: the pixel type and an optional value for
    the operations that raise an exception (a missing key, a string that is
    not a number). */
module Common {

  /** One grayscale pixel, as produced by converting an image to mode 'L'. */
  type Sample = x: int | 0 <= x <= 255

  datatype Option<+T> = None | Some(value: T)
}
