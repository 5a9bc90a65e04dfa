/** Optional values and results with a typed failure, as used by the handlers. */
module Wrappers {

  /** A value that may be absent, as Python's `Optional[...]` with `None`. */
  datatype Option<+T> = None | Some(value: T)

  /** The outcome of a handler: a response body, or the error it raises. */
  datatype Result<+T, +E> = Ok(value: T) | Err(error: E)
}
