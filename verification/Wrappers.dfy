/** Option and Result, and the byte types every component shares. */
module Wrappers {
  datatype Option<+T> = None | Some(value: T)

  datatype Result<+T, +E> = Ok(value: T) | Fail(error: E)

  type Byte = b: int | 0 <= b < 256

  type Bytes = seq<Byte>
}
