/** Option and Result shapes shared by the value bridge and the adapters. */
module Outcomes {

  /** An optional value; `None` also stands for a conversion that panicked. */
  datatype Option<+T> = None | Some(value: T) {

    /** The carried value, or `default` when there is none. */
    function GetOr(default: T): T {
      match this
      case Some(v) => v
      case None => default
    }
  }

  /** The `Result<T, E>` a library call returns. */
  datatype Result<+T, +E> = Success(value: T) | Failure(error: E)
}
