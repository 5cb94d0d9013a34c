/** Option and Result: the two ways an operation of the cache layer can fail to
    produce a value (an absent entry, or an error value). */
module Wrappers {

  datatype Option<+T> = None | Some(value: T)

  datatype Result<+R, +E> = Ok(value: R) | Err(error: E)
}
