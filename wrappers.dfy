/** Failure-compatible result types shared by the model's modules. */
module Wrappers {

  datatype Option<+T> = None | Some(value: T)

  /** The value of an operation that may raise, or the error it raised. */
  datatype Result<+R, +E> = Success(value: R) | Failure(error: E)

  /** The outcome of an operation that returns nothing of interest, or the error it raised. */
  datatype Outcome<+E> = Pass | Fail(error: E)
}
