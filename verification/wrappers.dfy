/** Failure-carrying wrappers used throughout the model. */
module Wrappers {

  /** A value that may be missing: the result of a partial operation. */
  datatype Option<+T> = None | Some(value: T)

  /** Either a computed value or the error that stopped the computation. */
  datatype Result<+R, +E> = Success(value: R) | Failure(error: E)
}
