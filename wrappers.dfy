/** Failure-carrying values that stand in for Go's `(value, error)` and `error` returns. */
module Wrappers {

  datatype Option<+T> = None | Some(value: T)

  /** A value or the error the Go function would have returned instead. */
  datatype Result<+T, +E> = Ok(value: T) | Err(error: E)

  /** A Go `error` return on its own: `nil` (Pass) or an error value. */
  datatype Outcome<+E> = Pass | Fail(error: E)
}
