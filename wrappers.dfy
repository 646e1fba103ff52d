/** Failure-compatible wrappers used across the model: Option stands for a Go
    pointer that may be nil, Outcome for a step that either finishes or stops
    the process with a fatal error, Result for a value or such an error. */
module Wrappers {

  datatype Option<+T> = None | Some(value: T)

  datatype Outcome<+E> = Pass | Fail(error: E)

  datatype Result<+R, +E> = Success(value: R) | Failure(error: E)
}
