/** Option and Result: the absent value and the error value the C code
    signals with a NULL pointer or a FALSE return plus an error message. */
module Wrappers {

  datatype Option<+T> = None | Some(value: T)

  datatype Result<+T, +E> = Ok(value: T) | Err(error: E)
}
