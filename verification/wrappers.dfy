/** Failure-carrying return types used in place of Kotlin's thrown exceptions and `null`. */
module Wrappers {

  /** A value that may be absent (a Kotlin nullable `T?`). */
  datatype Option<+T> = None | Some(value: T)

  /** Either a computed value or the exception the Kotlin code would have thrown. */
  datatype Result<+R, +E> = Success(value: R) | Failure(error: E)
}
