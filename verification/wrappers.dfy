/** Wrappers for JavaScript values that may be missing and for steps that
    may fail: `Option` stands for a value that may be `undefined`/`null`,
    `Result` for an operation that may throw or reject. */
module Wrappers {

  datatype Option<+T> = None | Some(value: T)

  datatype Result<+R, +E> = Success(value: R) | Failure(error: E)
}
