/** Failure-carrying result types used for the parser's exceptions. */
module Wrappers {

  datatype Option<+T> = None | Some(value: T)

  /** A computation that either yields a value or fails with an error. */
  datatype Result<+R, +E> = Success(value: R) | Failure(error: E)

  /** A check that either passes or fails with an error, and yields nothing. */
  datatype Outcome<+E> = Pass | Fail(error: E)
}
