/** Failure-compatible wrappers used across the model: `Option` stands for a
    value that may be `null`/`undefined`, `Result` for a call that either
    returns or throws. */
module Wrappers {

  datatype Option<+T> = None | Some(value: T)

  datatype Result<+R, +E> = Success(value: R) | Failure(error: E)
}
