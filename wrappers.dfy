/** Outcome types standing in for Python's `None` and for raised exceptions. */
module Wrappers {

  /** A value that may be absent; `None` plays the part of Python's `None`. */
  datatype Option<T> = None | Some(value: T)

  /** Either a normal return or a raised error. */
  datatype Result<T, E> = Ok(value: T) | Err(error: E)
}
