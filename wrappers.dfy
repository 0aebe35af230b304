/** Option and Result values: the model's counterparts of Rust's `Option` and `Result`. */
module Wrappers {

  datatype Option<+T> = None | Some(value: T)

  datatype Result<+T, +E> = Success(value: T) | Failure(error: E)

  /** `Result<(), E>` */
  datatype Outcome<+E> = Pass | Fail(error: E)
}
