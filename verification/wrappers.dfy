/** Failure-carrying values shared by every module of the model. */
module Wrappers {

  /** Go's nil-or-value, Python's None-or-value. */
  datatype Option<+T> = None | Some(value: T)

  /** A computation that either produced a value or returned an error. */
  datatype Result<+T, +E> = Success(value: T) | Failure(error: E)
}
