/** Failure-compatible wrappers used across the model: the Python code signals
    "no value" with None and failures with raised exceptions. */
module Wrappers {

  datatype Option<+T> = None | Some(value: T)

  datatype Result<+R, +E> = Success(value: R) | Failure(error: E)
}
