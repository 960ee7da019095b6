/** Option and Result, for the scripts' "no value" cases and their abort paths. */
module Wrappers {

  datatype Option<T> = None | Some(value: T)

  datatype Result<T, E> = Ok(value: T) | Err(error: E)
}
