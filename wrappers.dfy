/** Failure-carrying results: the Python code raises, the model returns. */
module Wrappers {

  datatype Option<+T> = None | Some(value: T)

  /** The value a generator or decoder returns, or the error it would raise. */
  datatype Result<+R, +E> = Success(value: R) | Failure(error: E)

  /** The outcome of a checker that returns nothing but may raise. */
  datatype Outcome<+E> = Pass | Fail(error: E)
}
