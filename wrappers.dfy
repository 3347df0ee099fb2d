/** Optional values and results with an error message. */
module Wrappers {
  datatype Option<T> = None | Some(value: T)

  /** The outcome of an operation that can raise; `Err` carries the Python exception's name. */
  datatype Result<T> = Ok(value: T) | Err(error: string)
}
