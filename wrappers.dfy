/** Failure-compatible result types shared by the model. */
module Wrappers {

  /** A value that may be absent (Python's `X | None`). */
  datatype Option<+T> = None | Some(value: T)

  /** Either a value or the error a Python function would have raised. */
  datatype Result<+T, +E> = Ok(value: T) | Err(error: E)
}
