/** Option and Result: the error paths of the modelled code (Go panics, Python exceptions)
    become values of these types instead of control flow. */
module Wrappers {

  datatype Option<+T> = None | Some(value: T)

  datatype Result<+T, +E> = Ok(value: T) | Err(error: E)
}
