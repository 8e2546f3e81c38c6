/** Optional values, results and the Python exceptions that the modelled code can raise. */
module Results {

  datatype Option<+T> = None | Some(value: T) {
    function GetOr(default: T): T {
      match this
      case Some(v) => v
      case None => default
    }
  }

  /** The exceptions raised by the modelled code, by their Python names. */
  datatype Exception =
    | IndexError
    | KeyError(key: string)
    | ValueError
    | InvalidVersion(text: string)
    | UnboundLocalError
    | TypeError

  datatype Result<+T> = Success(value: T) | Failure(error: Exception) {
    predicate IsFailure() {
      Failure?
    }

    function PropagateFailure<U>(): Result<U>
      requires Failure?
    {
      Failure(error)
    }

    function Extract(): T
      requires Success?
    {
      value
    }
  }
}
