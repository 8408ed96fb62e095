/** Small value types shared by every part of the model: optional values
    (the source's nullable references), bytes, and integer pixel coordinates. */
module Basics {

  /** A value that may be absent; `None` stands for a C# `null`. */
  datatype Option<T> = None | Some(value: T)

  /** An unsigned 8-bit integer. */
  type Byte = b: int | 0 <= b < 256

  /** A pixel coordinate on a canvas, in pixel space. */
  datatype Point = Point(x: int, y: int)
}
