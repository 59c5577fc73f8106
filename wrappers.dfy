/** Failure-carrying values shared by every module: a Python `None` or a
    missing dictionary entry is an `Option`, a raised exception is the
    `Failure` of a `Result`. */
module Wrappers {

  datatype Option<+T> = None | Some(value: T)

  datatype Result<+T, +E> = Success(value: T) | Failure(error: E)
}
