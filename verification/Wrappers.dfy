/** The two small result types shared by the model. */
module Wrappers {

  /** A nullable pointer, or an address that may be missing. */
  datatype Option<+T> = None | Some(value: T)

  /** The outcome of an operation that may throw. */
  datatype Result<+T, +E> = Ok(value: T) | Err(error: E)
}
