/** Option and Result values shared by the modules of this model. */
module Wrappers {

  /** A value that may be missing (`null` / `undefined` in the source). */
  datatype Option<+T> = None | Some(value: T)

  /** The outcome of an operation that can fail with a typed error
      (an exception or a panic in the source). */
  datatype Result<+T, +E> = Ok(value: T) | Err(error: E)
}
