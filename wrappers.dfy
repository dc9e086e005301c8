/** Failure-carrying values used by the store and the transfer engine in place of
    rejected promises and thrown errors. */
module Wrappers {

  datatype Option<+T> = None | Some(value: T)

  /** The value a promise settles to: resolved with `value`, or rejected with `error`. */
  datatype Result<+R, +E> = Success(value: R) | Failure(error: E)

  /** A promise that resolves with no value, or rejects with `error`. */
  datatype Outcome<+E> = Pass | Fail(error: E)
}
