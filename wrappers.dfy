/** Failure-compatible wrappers used across the model. */
module Wrappers {

  datatype Option<+T> = None | Some(value: T)

  /** A computation that may raise: `Err` carries the name of the Python exception. */
  datatype Result<+T> = Ok(value: T) | Err(error: string)
}
