/** Optional values and results, standing for JavaScript `undefined`/`null` and Rust `Option`/`Result`. */
module Wrappers {

  datatype Option<+T> = None | Some(value: T)

  datatype Result<+T, +E> = Ok(value: T) | Err(error: E)
}
