/** Option and Result types used for the source's null returns and exceptions. */
module Wrappers {

  /** A value that may be absent: `None` stands for a C# `null` or a failed `TryGetValue`. */
  datatype Option<+T> = None | Some(value: T)

  /** The outcome of an operation that may throw: `Failure` carries the exception kind. */
  datatype Result<+T, +E> = Success(value: T) | Failure(error: E) {

    predicate IsFailure() {
      Failure?
    }

    function PropagateFailure<U>(): Result<U, E>
      requires Failure?
    {
      Failure(error)
    }

    function Extract(): T
      requires Success?
    {
      value
    }
  }
}
