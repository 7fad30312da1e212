/** Optional values and results, standing in for Kotlin's nullable types and exceptions. */
module Wrappers {

  /** A Kotlin `T?`: `None` is `null`. */
  datatype Option<+T> = None | Some(value: T)

  /** A computation that either produced a value or raised a failure. */
  datatype Result<+T, +E> = Success(value: T) | Failure(error: E)
}
