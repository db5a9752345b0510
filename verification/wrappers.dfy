/** Failure-compatible wrappers used across the model: `Option` stands for a
    value that may be missing (a null cell, an absent table), `Result` for a
    stage that either hands a value on or stops the run with an error. */
module Wrappers {

  /** A value that may be absent. */
  datatype Option<+T> = None | Some(value: T)

  /** Either a value to pass on, or the error that stopped the run. */
  datatype Result<+R, +E> = Success(value: R) | Failure(error: E)
}
