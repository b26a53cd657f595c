/** Wrappers used across the model: Rust's `Option`, `Result` and `Result<()>`. */
module Wrappers {

  datatype Option<+T> = None | Some(value: T)

  datatype Result<+R, +E> = Success(value: R) | Failure(error: E)

  /** The outcome of a step that produces no value: `Ok(())` or `Err(error)`. */
  datatype Outcome<+E> = Pass | Fail(error: E)
}
