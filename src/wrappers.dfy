/** Option and Result types for the error paths of the C code (NULL returns,
 *  non-zero error codes). */
module Wrappers {
  datatype Option<T> = None | Some(value: T)

  datatype Result<T, E> = Ok(value: T) | Err(error: E)
  {
    predicate IsOk() { this.Ok? }
  }
}
