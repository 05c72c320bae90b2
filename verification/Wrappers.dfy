/** The two failure types every module of the model shares. */
module Wrappers {
  datatype Option<+T> = None | Some(value: T)

  /** A value, or the error that the modelled code raises instead. */
  datatype Result<+T, +E> = Ok(value: T) | Err(error: E)
}
