/** Failure-carrying datatypes shared by the whole model: `Option` for
    values that may be absent, `Result` for Rust's `Result<T, E>`. */
module Wrappers {

  datatype Option<+T> = None | Some(value: T)

  datatype Result<+T, +E> = Success(value: T) | Failure(error: E)
}
