/** Failure-carrying result types shared by the modules of this model. */
module Wrappers {

  datatype Option<+T> = None | Some(value: T)

  /** The value of a call that either returns normally or raises. */
  datatype Result<+T, +E> = Ok(value: T) | Err(error: E)
}
