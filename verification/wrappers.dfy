/** Option and Result types used where the modelled code returns null or throws. */
module Wrappers {

  /** A value that may be absent; `None` stands for a C# `null` reference. */
  datatype Option<+T> = None | Some(value: T)

  /** The outcome of an operation that may throw; `Err` carries the exception text. */
  datatype Result<+T> = Ok(value: T) | Err(message: string)
}
