/** Failure-carrying values used throughout the model in place of Python's
    `None` and exceptions. */
module Outcomes {

  /** A value that may be absent (Python `None`). */
  datatype Option<+T> = None | Some(value: T)

  /** A computation that either produced a value or raised an error. */
  datatype Result<+T, +E> = Success(value: T) | Failure(error: E)

  /** A computation run for its effect that either completed or raised. */
  datatype Outcome<+E> = Pass | Fail(error: E)
}
