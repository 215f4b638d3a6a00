/** Optional values and raised errors, for every module. */
module Prelude {
  datatype Option<T> = None | Some(value: T)

  /** A value, or the error the C code raises instead. */
  datatype Result<T> = Ok(value: T) | Err
}
