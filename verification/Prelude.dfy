/** Shared result types. */
module Prelude {

  datatype Option<+T> = None | Some(value: T)

  /** The value of a computation, or the error it raised. */
  datatype Result<+T, +E> = Ok(value: T) | Err(error: E)
}
