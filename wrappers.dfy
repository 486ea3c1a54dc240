/** Option and Result, the model's stand-ins for C# null and for thrown exceptions. */
module Wrappers {

  /** A C# nullable reference or nullable value: `None` is `null`. */
  datatype Option<+T> = None | Some(value: T)

  /** The outcome of an operation that either returns a value or throws. */
  datatype Result<+T, +E> = Success(value: T) | Failure(error: E)
}
