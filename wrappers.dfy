/** Option and Result values for lookups that can miss and operations that can throw. */
module Wrappers {

  datatype Option<+T> = None | Some(value: T)

  /** `Err` stands for an exception the JavaScript code lets propagate to its caller. */
  datatype Result<+T, +E> = Ok(value: T) | Err(error: E)
}
