/** Option and Result values shared by the models: Python's `None` and a raised exception. */
module Wrappers {

  /** A value that may be absent (Python's `None`). */
  datatype Option<+T> = None | Some(value: T)

  /** The outcome of an operation that may raise an exception instead of returning. */
  datatype Result<+T, +E> = Ok(value: T) | Err(error: E)
}
