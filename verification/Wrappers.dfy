/** Shared result types: absence (`null`/`undefined` in the sources) and failure (a thrown error). */
module Wrappers {

  datatype Option<+T> = None | Some(value: T)

  datatype Result<+T, +E> = Ok(value: T) | Err(error: E)
}
