/** Optional values and error-carrying results, used where the tool either
    has no value (a nil map) or stops with a fatal diagnostic. */
module Outcomes {

  datatype Option<+T> = None | Some(value: T)

  datatype Result<+T, +E> = Ok(value: T) | Err(error: E)
}
