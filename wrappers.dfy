/** Optional values and results carrying an error, as Go's `(value, err)` pairs are read here. */
module Wrappers {

  datatype Option<T> = None | Some(value: T)

  datatype Result<T, E> = Ok(value: T) | Err(error: E)
}
