/** Failure-compatible result types shared by the model. */
module Wrappers {

  /** An optional value; a root's unlocking condition is `None`. */
  datatype Option<+T> = None | Some(value: T)

  /** A computation that either succeeds with a value or fails with an error. */
  datatype Result<+R, +E> = Success(value: R) | Failure(error: E)
}
