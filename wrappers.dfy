/** Optional values and success-or-error results, used for JavaScript's
    `null`/`NaN` and for thrown errors. */
module Wrappers {

  datatype Option<+T> = None | Some(value: T)

  /** A computation that returns a value or throws an error carrying a message. */
  datatype Result<+T, +E> = Success(value: T) | Failure(error: E)
}
