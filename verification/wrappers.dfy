/** Failure-carrying values used by the miner model. */
module Wrappers {

  /** An optional value: Rust's `Option`. */
  datatype Option<+T> = None | Some(value: T)

  /** The result of an operation that yields nothing on success: Rust's `eyre::Result<()>`. */
  datatype Outcome<+E> = Pass | Fail(error: E)
}
