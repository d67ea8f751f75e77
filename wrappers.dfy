/** Value-or-absence and value-or-error wrappers used across the model. */
module Wrappers {

  /** `undefined` in the source becomes None. */
  datatype Option<+T> = None | Some(value: T)

  /** A call that either returns a value or throws an error. */
  datatype Result<+R, +E> = Success(value: R) | Failure(error: E)
}
