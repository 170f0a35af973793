/** Failure-carrying return values used throughout the model, standing in for
    Go's `(value, error)` pairs, `error` returns and nil pointers. */
module Wrappers {

  /** A value that may be missing (a nil pointer, an unset variable). */
  datatype Option<+T> = None | Some(value: T)

  /** Either a value (`Ok`) or an error (`Err`). */
  datatype Result<+T, +E> = Ok(value: T) | Err(error: E)

  /** Success without a value, or an error: Go's plain `error` return. */
  datatype Outcome<+E> = Pass | Fail(error: E)
}
