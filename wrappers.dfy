/** Failure-carrying values used for the source's `null` results and thrown errors. */
module Wrappers {

  datatype Option<+T> = None | Some(value: T)

  /** A computation that either produced a value or raised an error. */
  datatype Result<+T, +E> = Ok(value: T) | Err(error: E)

  /** A computation without a value that either completed or raised an error. */
  datatype Outcome<+E> = Pass | Fail(error: E)
}
