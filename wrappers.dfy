/** Optional values and results with an error, used where the Python code
    returns None or raises Http404 instead of answering. */
module Wrappers {

  datatype Option<+T> = None | Some(value: T)

  datatype Result<+T, +E> = Ok(value: T) | Err(error: E)
}
