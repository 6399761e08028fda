/** Failure-carrying return values, used where the Kotlin code returns null or throws. */
module Wrappers {

  /** Kotlin's nullable value: `null` is `None`. */
  datatype Option<+T> = None | Some(value: T)

  /** A value or the error the Kotlin code would have thrown instead. */
  datatype Result<+R, +E> = Success(value: R) | Failure(error: E)
}
