/** Option and Result, the two wrappers the model uses for Python's None and exceptions. */
module Wrappers {

  /** A value that may be absent, as a Python keyword argument left at None. */
  datatype Option<+T> = None | Some(value: T)

  /** Either a value or the exception the source would raise instead. */
  datatype Result<+T, +E> = Ok(value: T) | Err(error: E)
}
