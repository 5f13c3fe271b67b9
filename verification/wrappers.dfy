/** Failure-compatible wrappers shared by the planning modules. */
module Wrappers {

  /** A value that may be absent: an unknown registry id, an unset best candidate. */
  datatype Option<+T> = None | Some(value: T)

  /** The outcome of a check that either passes or fails with an error value. */
  datatype Outcome<+E> = Pass | Fail(error: E)

  /** A computation that either succeeds with a value or fails with an error value. */
  datatype Result<+R, +E> = Success(value: R) | Failure(error: E)
}
