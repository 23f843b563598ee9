/** Option and Result, the shapes of Rust's `Option` and of a call that either
    yields a value or fails (where the source panics on a malformed input). */
module Wrappers {

  datatype Option<+T> = None | Some(value: T)

  datatype Result<+R, +E> = Success(value: R) | Failure(error: E)
}
