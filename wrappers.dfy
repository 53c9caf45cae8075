/** Option and Result: the model's stand-ins for C#'s nullable references and thrown exceptions. */
module Wrappers {

  datatype Option<+T> = None | Some(value: T)

  /** The outcome of an operation that may throw: Ok with its value, or Err with the exception's message. */
  datatype Result<+T> = Ok(value: T) | Err(message: string)

  /** The outcome of an operation that returns nothing but may throw. */
  datatype Outcome = Pass | Fail(message: string)
}
