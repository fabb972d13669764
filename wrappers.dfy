/** Failure-carrying wrappers shared by every module of the model. */
module Wrappers {

  /** A value that may be absent: JavaScript `null`, `undefined` or `NaN`. */
  datatype Option<+T> = None | Some(value: T)

  /** The outcome of an operation that may throw: the value it returns, or what it throws. */
  datatype Result<+R, +E> = Success(value: R) | Failure(error: E)
}
