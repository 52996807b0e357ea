/** Failure-carrying values: Go's `(*T, error)` and `error` returns. */
module Wrappers {

  /** A value that may be absent: Go's nil pointer. */
  datatype Option<+T> = None | Some(value: T)

  /** A value or an error: Go's `(v, err)` pair where exactly one is meaningful. */
  datatype Result<+T, +E> = Success(value: T) | Failure(error: E)

  /** A bare error return: `nil` (Pass) or an error. */
  datatype Outcome<+E> = Pass | Fail(error: E)
}
