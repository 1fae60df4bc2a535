/** Option and Result, the two shapes the handler's return values take. */
module Wrappers {

  /** A value that may be absent: Go's nil interface or nil slice. */
  datatype Option<+T> = None | Some(value: T)

  /** A parsed value or the error that parsing reported. */
  datatype Result<+R, +E> = Success(value: R) | Failure(error: E)
}
