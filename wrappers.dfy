/** Option and Result, used for JavaScript's `null` and for a run that throws. */
module Wrappers {

  /** `None` stands for JavaScript's `null`. */
  datatype Option<+T> = None | Some(value: T)

  /** The outcome of a run: a value, or the error that ended it. */
  datatype Result<+R, +E> = Success(value: R) | Failure(error: E)
}
