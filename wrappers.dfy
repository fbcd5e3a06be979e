/** Option and Result, the failure-carrying wrappers used throughout the model. */
module Wrappers {

  datatype Option<+T> = None | Some(value: T)

  /** A computation that either yields a value or raises an error (a JavaScript exception). */
  datatype Result<+R, +E> = Success(value: R) | Failure(error: E)
}
