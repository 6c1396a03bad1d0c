/** Option and result types shared by every module of the model. */
module Wrappers {

  /** A value that may be absent; stands for a C# null reference or nullable value. */
  datatype Option<+T> = None | Some(value: T)

  /** The value of an operation that may throw instead of returning. */
  datatype Result<+T, +E> = Success(value: T) | Failure(error: E)

  /** The outcome of a void operation that may throw. */
  datatype Outcome<+E> = Pass | Fail(error: E)
}
