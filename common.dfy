/** Value types shared by every module of the model: optional values, results
    with an error side, and Go's `error` values (which may be nil). */
module Common {

  datatype Option<+T> = None | Some(value: T) {
    function GetOr(default: T): T {
      match this
      case Some(v) => v
      case None => default
    }
  }

  datatype Result<+R, +E> = Success(value: R) | Failure(error: E)

  /** A Go `error` value: either nil or a non-nil error whose `Error()` text is `text`. */
  datatype GoError = Nil | Error(text: string)

  /** An error a Go function returns on its failure path, where it is never nil. */
  type NonNilError = e: GoError | e.Error? witness Error("")

  /** What `fmt`'s `%v` verb prints for an error value. */
  function Format(e: GoError): string {
    match e
    case Nil => "<nil>"
    case Error(t) => t
  }
}
