/** Option and Result values used throughout the model. */
module Wrappers {

  /** An optional value: `None` stands for JavaScript's `undefined`, `null` or `NaN`. */
  datatype Option<+T> = None | Some(value: T)

  /** The outcome of a step that may throw: `Failure` carries the message of the error thrown. */
  datatype Result<+R, +E> = Success(value: R) | Failure(error: E)
}
