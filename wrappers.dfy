/** Failure-carrying values used throughout the model in place of Python exceptions. */
module Wrappers {

  datatype Option<+T> = None | Some(value: T)

  /** A computation that either produced a value or raised an exception with a message. */
  datatype Result<+R, +E> = Success(value: R) | Failure(error: E)

  /** A computation with no value that either completed or raised an exception with a message. */
  datatype Outcome<+E> = Pass | Fail(error: E)
}
