/** Failure-compatible result types. A Rust `panic!`, `unwrap` on `None` or
    `expect` becomes an `Err`/`Fail` value carrying the panic message. */
module Wrappers {

  datatype Option<+T> = None | Some(value: T)

  datatype Result<+T> = Ok(value: T) | Err(error: string)

  /** The result of a `Result<(), String>` operation, or of one that may panic. */
  datatype Outcome = Pass | Fail(error: string)
}
