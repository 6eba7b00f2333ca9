/** Option, and Outcome for a foreign Python call that either returns a value or raises. */
module Wrappers {

  datatype Option<+T> = None | Some(value: T) {
    function GetOr(default: T): T {
      match this
      case Some(v) => v
      case None => default
    }
  }

  /** The result of a call into code outside the model: the value it returned, or the
      text (`str(e)`) of the exception it raised. */
  datatype Outcome<+T> = Returned(value: T) | Raised(message: string)
}
