/** Option and Result types shared by every module of the model. */
module Wrappers {

  /** Python's `None` / a value. */
  datatype Option<+T> = None | Some(value: T)

  /** A computation that either returns a value or raises. */
  datatype Result<+T, +E> = Ok(value: T) | Err(error: E)

  /** The exceptions the modelled Python code can raise on its own. */
  datatype PyError = IndexError
}
