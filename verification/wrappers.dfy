/** Option and Result: the shapes the model uses for C# nullable values,
    JavaScript `undefined`, and operations that throw. */
module Wrappers {

  /** A value that may be absent (`null` in C#, `None` in Python). */
  datatype Option<+T> = None | Some(value: T) {

    /** The wrapped value, or `default` when absent (C#'s `??`). */
    function GetOr(default: T): (r: T)
      ensures Some? ==> r == value
      ensures None? ==> r == default
    {
      match this
      case Some(v) => v
      case None => default
    }
  }

  /** The outcome of an operation that either returns a value or throws. */
  datatype Result<+R, +E> = Success(value: R) | Failure(error: E)
}
