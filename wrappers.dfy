/** Failure-carrying result types shared by every module of the model. */
module Wrappers {

  datatype Option<+T> = None | Some(value: T) {
    /** The wrapped value, or `default` when there is none. */
    function GetOr(default: T): T {
      match this
      case Some(v) => v
      case None => default
    }
  }

  /** The Python exceptions that the modelled code lets escape. */
  datatype PyError =
    | KeyError
    | IndexError
    | AttributeError
    | AssertionError
    | ValueError
    | UnicodeDecodeError
    | LookupError

  /** A computation that either returns a value or raises. */
  datatype Result<+T> = Ok(value: T) | Err(error: PyError)

  /** A computation run for its effect that either returns or raises. */
  datatype Outcome = Pass | Fail(error: PyError)
}
