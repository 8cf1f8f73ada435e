/** `Option` and `Result`, used across the model. */
module Wrappers {

  /** A value that may be absent (a Go nil pointer). */
  datatype Option<+T> = None | Some(value: T)

  /** A value or the error the Go code would return beside it. */
  datatype Result<+R, +E> = Success(value: R) | Failure(error: E)
}
