/** Failure-carrying result types used across the model. */
module Wrappers {

  /** A value that may be absent. */
  datatype Option<+T> = None | Some(value: T)

  /** A computed value or the error that stopped the computation. */
  datatype Result<+T, +E> = Success(value: T) | Failure(error: E)

  /** Success without a value, or the error that stopped the computation. */
  datatype Outcome<+E> = Pass | Fail(error: E)
}
