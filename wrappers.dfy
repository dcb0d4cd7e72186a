/** Small failure-carrying datatypes shared by the model. */
module Wrappers {

  /** A value that may be absent: Python's `None`, or a pandas NaN cell. */
  datatype Option<+T> = None | Some(value: T) {
    function GetOr(default: T): T {
      match this
      case Some(v) => v
      case None => default
    }
  }

  /** The outcome of a Python call that either returns or raises. */
  datatype Outcome<+T> = Returned(value: T) | Raised
}
