/** Failure-carrying datatypes shared by the other modules. */
module Wrappers {

  /** A value that may be absent (Go's nil pointer or missing value). */
  datatype Option<+T> = None | Some(value: T)

  /** A value, or the error that an operation returned instead (Go's `(T, error)` pair). */
  datatype Result<+R, +E> = Success(value: R) | Failure(error: E)
}
