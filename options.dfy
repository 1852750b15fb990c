/** Optional values and error-carrying results, the Dafny counterparts of Rust's
    `Option<T>` and `Result<T, E>`. */
module Options {

  datatype Option<+T> = None | Some(value: T)

  datatype Result<+T, +E> = Ok(value: T) | Err(error: E)
}
