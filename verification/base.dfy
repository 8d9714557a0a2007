/** Failure-carrying wrappers shared by every module of the model. */
module Base {

  /** A value that may be absent: Python's `None`, a pandas NaN, a failed parse. */
  datatype Option<+T> = None | Some(value: T) {
    function GetOr(default: T): T {
      match this
      case Some(v) => v
      case None => default
    }
  }

  /** The Python exceptions the modelled code raises. */
  datatype PyError =
    | KeyError(key: string)        // a missing DataFrame column
    | TypeError(reason: string)    // e.g. calling a method on the wrong kind of object
    | ValueError(reason: string)   // e.g. `datetime.date` given a day the month lacks
    | UnboundLocal(name: string)   // reading a local that no path assigned
    | AttributeError(name: string) // e.g. `.strip()` on a value that is not a string

  /** Either a value or the exception that escaped. */
  datatype Result<+T> = Returned(value: T) | Raised(error: PyError)
}
