/** Failure-carrying result types used across the model. */
module Wrappers {

  datatype Option<+T> = None | Some(value: T)

  datatype Result<+R, +E> = Success(value: R) | Failure(error: E)

  /** The outcome of an operation that either completes or raises `error`. */
  datatype Outcome<+E> = Pass | Fail(error: E)
}
