/** Option and Result, the failure-carrying datatypes used throughout the model. */
module Wrappers {

  datatype Option<+T> = None | Some(value: T)

  /** The outcome of a step that either commits a value or fails with an error. */
  datatype Result<+T, +E> = Success(value: T) | Failure(error: E)
}
