/** Small value types shared by the model of the movie catalog. */
module Basics {

  /** A value that may be absent: a C# nullable (`int?`, `byte[]?`). */
  datatype Option<T> = None | Some(value: T)

  /** An unsigned 8-bit value, as C#'s `byte`. */
  newtype byte = b: int | 0 <= b < 256
}
