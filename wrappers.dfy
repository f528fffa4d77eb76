/** Failure-carrying values shared by every module: Swift optionals become `Option`,
    throwing functions become `Result`, throwing `mutating` functions with no result
    become `Outcome`. */
module Wrappers {

  datatype Option<+T> = None | Some(value: T)

  datatype Result<+T, +E> = Ok(value: T) | Err(error: E)

  datatype Outcome<+E> = Pass | Fail(error: E)

  /** Swift's `ArrayError`, thrown by the array helpers; only the case the helpers
      throw is known. */
  datatype ArrayError = RemovalError
}
