/** Option and Result values used throughout the model: a nullable cell is an
    Option, and an operation that raises in the source returns a Result. */
module Wrappers {

  datatype Option<+T> = None | Some(value: T)

  datatype Result<+T, +E> = Ok(value: T) | Err(error: E)
}
