/** Failure-carrying result types shared by the modules of this model. */
module Wrappers {

  datatype Option<+T> = None | Some(value: T)

  /** The outcome of a write or a computation: a value, or the error that aborted it. */
  datatype Result<+T, +E> = Success(value: T) | Failure(error: E)

  /** The outcome of a check that produces no value. */
  datatype Outcome<+E> = Pass | Fail(error: E)
}
