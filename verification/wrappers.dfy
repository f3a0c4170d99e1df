/** The outcome types of the action-line readers: an absent optional
    parameter, and a value or one of the C# code's exceptions. */
module Wrappers {

  /** A value that may be absent; `None` stands for a C# `null` result. */
  datatype Option<+T> = None | Some(value: T)

  /** Either a value or an error. */
  datatype Result<+R, +E> = Success(value: R) | Failure(error: E)
}
