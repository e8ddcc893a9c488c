/** Optional values and results with an error, for the model's partial inverses
    and for Go's `(value, err)` returns. */
module Wrappers {

  datatype Option<T> = None | Some(value: T)

  datatype Result<T, E> = Ok(value: T) | Err(error: E)
}
