/** Optional values and outcomes that may fail. */
module Wrappers {

  /** Python's `Optional[T]`: `None` or a value. */
  datatype Option<T> = None | Some(value: T)

  /** A value, or the error that stopped its computation. */
  datatype Result<T, E> = Success(value: T) | Failure(error: E)
}
