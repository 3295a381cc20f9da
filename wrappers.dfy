/** The optional value and the outcome of a call that may raise. */
module Wrappers {

  datatype Option<T> = None | Some(value: T)

  /** Ok, or a Python exception (IndexError, ValueError, ...). */
  datatype Result<T> = Ok(value: T) | Error
}
