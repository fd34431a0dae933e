/** Optional values and error results shared by the whole model. */
module Wrappers {

  /** A value that may be absent; stands for Python's `Optional[T]` (None or a value). */
  datatype Option<+T> = None | Some(value: T)

  /** The outcome of a request handler: a value, or the error it raises. */
  datatype Result<+T, +E> = Ok(value: T) | Err(error: E)
}
