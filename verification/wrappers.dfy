/** The `Option` and `Result` datatypes shared by the other modules. */
module Wrappers {

  /** A value that may be absent: SQL `None`, an empty fetch, no collage. */
  datatype Option<+T> = None | Some(value: T)

  /** The outcome of a call that can raise: a value or the error it raised. */
  datatype Result<+T, +E> = Ok(value: T) | Err(error: E)
}
