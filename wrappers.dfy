/** Option and Result, the two failure-carrying wrappers the rest of the model uses. */
module Wrappers {

  datatype Option<+T> = None | Some(value: T)

  /** A JavaScript `throw` is modelled as `Err` carrying the error's message. */
  datatype Result<+T, +E> = Ok(value: T) | Err(error: E)
}
