/** Failure-carrying values standing for Go's `(value, error)` and `error` returns. */
module Wrappers {

  datatype Option<+T> = None | Some(value: T)

  /** A Go `(T, error)` pair: either a value or the error. */
  datatype Result<+T, +E> = Success(value: T) | Failure(error: E)

  /** A Go `error` return on its own: nil (`Pass`) or an error. */
  datatype Outcome<+E> = Pass | Fail(error: E)
}
