/** The optional and failure-carrying results used across the model. */
module Wrappers {

  /** A value that may be absent: JavaScript's `null` / `undefined` result. */
  datatype Option<+T> = None | Some(value: T)

  /** A computation that either produces a value or fails with an error. */
  datatype Result<+T, +E> = Success(value: T) | Failure(error: E)
}
