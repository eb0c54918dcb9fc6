/** Failure-compatible result types shared by the rest of the model. */
module Wrappers {

  /** A value that may be absent; models an unset environment variable. */
  datatype Option<+T> = None | Some(value: T)

  /** Either a value or an error; models Rust's `Result<T, E>`. */
  datatype Result<+R, +E> = Success(value: R) | Failure(error: E)
}
