/** Option and Result, used for lookups that may fail and for operations that can throw. */
module Wrappers {
  datatype Option<T> = None | Some(value: T)

  /** `Err` carries the message a `std::runtime_error` would carry. */
  datatype Result<T> = Ok(value: T) | Err(error: string)

  /** The outcome of an operation that returns nothing but may throw. */
  datatype Outcome = Success | Failure(error: string)
}
