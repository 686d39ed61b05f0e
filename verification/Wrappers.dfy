/** Optional values and fallible results shared by every module of the model. */
module Wrappers {
  datatype Option<+T> = None | Some(value: T)

  datatype Result<+T, +E> = Success(value: T) | Failure(error: E)

  /** The reply of an operation that returns nothing but may fail. */
  datatype Unit = Unit
}
