/** Optional values and results used across the model. */
module Wrappers {

  /** A value that may be absent (Python's `Optional[T]`, `None` included). */
  datatype Option<+T> = None | Some(value: T)

  /** A computation that either succeeds with a value or raises an error. */
  datatype Result<+R, +E> = Success(value: R) | Failure(error: E)
}
