/** Optional values and the outcome of an operation that may raise. */
module Wrappers {

  /** A value that may be absent (Python's `None`). */
  datatype Option<T> = None | Some(value: T)

  /** The outcome of a Python call that either returns a value or raises an exception. */
  datatype Result<T> = Ok(value: T) | Raised
}
