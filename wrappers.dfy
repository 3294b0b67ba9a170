/** Small optional and outcome types shared by the engine and the web helpers. */
module Wrappers {

  /** An optional value: Python's `None`, JavaScript's `null`/`undefined`. */
  datatype Option<+T> = None | Some(value: T)

  /** A value or an error. */
  datatype Result<+T, +E> = Ok(value: T) | Err(error: E)
}
