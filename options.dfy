/** Optional values and fallible results, standing in for Rust's `Option` and for the panics of the parser. */
module Options {

  datatype Option<+T> = None | Some(value: T)

  datatype Result<+T, +E> = Ok(value: T) | Err(error: E)
}
