/** Option and Result, the two failure-carrying datatypes the model uses for
    `null`/`undefined` returns and for Rust's `Result`. */
module Wrappers {

  datatype Option<+T> = None | Some(value: T)

  datatype Result<+R, +E> = Ok(value: R) | Err(error: E)
}
