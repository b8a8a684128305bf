/** Failure-compatible wrappers shared by the other modules. */
module Wrappers {

  /** A possibly absent value: the model of a JavaScript `null` result. */
  datatype Option<+T> = None | Some(value: T)

  /** Either a value or an error: the model of an operation that can throw. */
  datatype Result<+T, +E> = Ok(value: T) | Err(error: E)
}
