/** Failure-carrying wrappers shared by the other modules. */
module Wrappers {

  /** An optional value: pandas' missing value (None) or a present one. */
  datatype Option<+T> = None | Some(value: T)

  /** The outcome of an operation that either produces a value or raises an error. */
  datatype Result<+R, +E> = Success(value: R) | Failure(error: E)
}
