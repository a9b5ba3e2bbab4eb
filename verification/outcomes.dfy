/** Optional values and success-or-failure results, used wherever the client
    either produces a value or reports a failure (a `false` return or a thrown
    exception in the client). */
module Outcomes {

  datatype Option<+T> = None | Some(value: T)

  datatype Result<+T, +E> = Ok(value: T) | Err(error: E)
}
