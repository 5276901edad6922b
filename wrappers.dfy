/** Optional values and results with an error, shared by the news modules. */
module Wrappers {

  /** A JSON field that may be absent or null (None), or a module variable that may hold `null`. */
  datatype Option<+T> = None | Some(value: T)

  /** The outcome of a step that may throw: the value, or the reason it threw. */
  datatype Result<+T, +E> = Ok(value: T) | Err(error: E)
}
