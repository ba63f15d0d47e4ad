/** Failure-carrying values used throughout the model: Rust's `Option`, `Result`,
    and the outcome of a call that may panic through `expect`. */
module Wrappers {

  datatype Option<+T> = None | Some(value: T)

  datatype Result<+T, +E> = Ok(value: T) | Err(error: E)

  /** `Pass` when the call returned normally, `Fail(message)` when it panicked
      with that `expect` message. */
  datatype Outcome<+E> = Pass | Fail(error: E)
}
