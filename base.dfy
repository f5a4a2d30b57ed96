/** Small value types shared by the banner and the mockup models. */
module Base {

  /** An optional value: `None` stands for Python's `None` as a "no result" return. */
  datatype Option<+T> = None | Some(value: T)

  /** A value or the error that the Python code would raise instead. */
  datatype Result<+T, +E> = Ok(value: T) | Err(error: E)

  /** The size of an image, `(width, height)` in pixels as PIL's `img.size` gives it. */
  datatype Size = Size(width: nat, height: nat)

  /** A crop box `(left, upper, right, lower)` in PIL's convention: right and lower are exclusive. */
  datatype Box = Box(left: int, top: int, right: int, bottom: int)
  {
    function Width(): int { right - left }
    function Height(): int { bottom - top }
  }
}
