/** The optional and result types used throughout the model. */
module Wrappers {

  /** A value that may be absent. Python's `None` for optional fields. */
  datatype Option<+T> = None | Some(value: T)

  /** Either a value or the exception that the Python code would raise. */
  datatype Result<+R, +E> = Ok(value: R) | Err(error: E)
}
