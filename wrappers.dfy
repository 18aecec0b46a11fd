/** Failure-carrying datatypes shared by the model. */
module Wrappers {

  datatype Option<+T> = None | Some(value: T)

  /** A value or the error that prevented computing it. */
  datatype Result<+R, +E> = Success(value: R) | Failure(error: E)

  /** Success without a value, or an error (a Node.js callback called as `callback(err)` or `callback()`). */
  datatype Outcome<+E> = Pass | Fail(error: E)
}
