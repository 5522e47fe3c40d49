/** Option and Result values used throughout the model, standing for Rust's
    `Option<T>` and `Result<T, String>`. */
module Wrappers {

  datatype Option<+T> = None | Some(value: T)

  /** Every fallible operation of the modelled core reports its error as a
      human-readable `String`, so the error type is fixed to `string`. */
  datatype Result<+T> = Ok(value: T) | Err(error: string)
}
