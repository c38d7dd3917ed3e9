/** Failure-carrying datatypes used throughout the model: `Option` stands for
    Python's `None`-or-value returns, `Result` for a value-or-exception. */
module Wrappers {

  datatype Option<+T> = None | Some(value: T)

  datatype Result<+T, +E> = Success(value: T) | Failure(error: E)
}
