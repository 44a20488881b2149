/** Failure-compatible wrappers used throughout the model: `Option` for a
    lookup that may miss (Python's `dict.get` returning `None`), `Result` for
    an operation that may raise. */
module Wrappers {

  datatype Option<+T> = None | Some(value: T)

  datatype Result<+R, +E> = Success(value: R) | Failure(error: E)
}
