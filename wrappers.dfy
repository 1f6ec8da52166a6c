/** Optional values and call outcomes shared by the other modules. */
module Wrappers {

  /** A value that may be absent, like Python's `Optional[T]`. */
  datatype Option<+T> = None | Some(value: T) {

    /** The wrapped value, or `default` when absent. */
    function GetOr(default: T): T
    {
      match this
      case Some(v) => v
      case None => default
    }
  }

  /** The outcome of a call that returns nothing or raises the error `error`. */
  datatype Outcome<+E> = Pass | Fail(error: E)
}
