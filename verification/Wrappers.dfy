/** Values for the original's `Option`, `Result` and panics. */
module Wrappers {
  datatype Option<+T> = None | Some(value: T)

  datatype Result<+T, +E> = Ok(value: T) | Err(error: E)

  /** What a function that may panic comes to. */
  datatype Outcome<+T> = Done(value: T) | Panic
}
