/** Optional values and results with an error, for the places where the
    program returns `None` or raises an exception that its caller catches. */
module Wrappers {

  datatype Option<+T> = None | Some(value: T)

  datatype Result<+T, +E> = Ok(value: T) | Err(error: E)
}
