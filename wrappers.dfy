/** Optional values and the success/failure outcomes that stand in for
    JavaScript's `undefined` and for thrown errors. */
module Wrappers {

  /** A value that may be absent (`T | undefined`). */
  datatype Option<+T> = None | Some(value: T)

  /** A computation that either returns a value or throws an error. */
  datatype Result<+R, +E> = Success(value: R) | Failure(error: E)

  /** A check that either passes or throws an error, and returns nothing. */
  datatype Outcome<+E> = Pass | Fail(error: E)
}
