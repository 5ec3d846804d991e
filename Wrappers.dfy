/** Small failure-carrying datatypes shared by the model. */
module Wrappers {

  /** A value that may be absent (JavaScript's `undefined`). */
  datatype Option<+T> = None | Some(value: T)

  /** Either a value or an error. */
  datatype Result<+T, +E> = Success(value: T) | Failure(error: E)

  /** The result of a gulp task: `done()` is Pass, `done(err)` is Fail(err). */
  datatype Outcome<+E> = Pass | Fail(error: E)
}
