/** Optional values and error-or-value results, used where the source has
    missing dictionary keys, caught exceptions and re-raised errors. */
module Wrappers {

  datatype Option<+T> = None | Some(value: T)

  datatype Result<+T, +E> = Ok(value: T) | Err(error: E)
}
