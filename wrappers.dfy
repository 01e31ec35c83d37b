/** Optional values and results with an error: the "no match" and "refused" outcomes of the popup's post-processing. */
module Wrappers {

  datatype Option<T> = None | Some(value: T)

  datatype Result<T, E> = Ok(value: T) | Err(error: E)
}
