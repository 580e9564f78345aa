/** Option and Result, used for the null symbol and for the exceptions the codec propagates. */
module Wrappers {

  datatype Option<+T> = None | Some(value: T)

  datatype Result<+T, +E> = Ok(value: T) | Err(error: E)
}
