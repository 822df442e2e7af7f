/** Failure-carrying values used in place of Python's `None` and raised exceptions. */
module Wrappers {

  /** A value that may be absent: a parse that failed, a cache file that does not exist. */
  datatype Option<+T> = None | Some(value: T)

  /** The outcome of an operation that either returns a value or raises an error. */
  datatype Result<+T, +E> = Ok(value: T) | Err(error: E)
}
