/** Optional values and results with an error, for the places where the source
    returns `undefined` or throws. */
module Wrappers {

  datatype Option<T> = None | Some(value: T)

  datatype Result<T, E> = Ok(value: T) | Err(error: E)
}
