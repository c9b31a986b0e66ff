/** Option and Result, the two failure-carrying shapes the model needs. */
module Wrappers {

  /** A value that may be absent (Rust's `Option`, or a `Result` whose error is not inspected). */
  datatype Option<+T> = None | Some(value: T)

  /** A value or an error message (anyhow's `Result`, whose error is built from a message). */
  datatype Result<+T> = Ok(value: T) | Err(msg: string)
}
