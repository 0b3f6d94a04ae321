/** Failure-carrying values shared by every part of the model. */
module Outcome {

  /** A value that may be absent, standing in for a C pointer that may be NULL. */
  datatype Option<+T> = None | Some(value: T)

  /** The result of an operation that can fail with an error of type `E`. */
  datatype Result<+T, +E> = Ok(value: T) | Err(error: E)
}
