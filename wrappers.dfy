/** Option and Result, the two failure-carrying shapes the model uses. */
module Wrappers {

  /** A value that may be missing (JavaScript's `undefined` / `null`). */
  datatype Option<+T> = None | Some(value: T)

  /** The outcome of a handler: a value on success, an error otherwise. */
  datatype Result<+R, +E> = Success(value: R) | Failure(error: E)
}
