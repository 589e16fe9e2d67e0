/** Failure-carrying datatypes shared by every module of the model: the Rust
    `Option<T>`, `Result<T, E>` and `Result<(), E>` shapes. */
module Wrappers {

  datatype Option<+T> = None | Some(value: T)

  datatype Result<+T, +E> = Ok(value: T) | Err(error: E)

  /** `Result<(), E>`: success carries no value. */
  datatype Outcome<+E> = Pass | Fail(error: E)
}
