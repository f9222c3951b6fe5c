/** Failure-carrying wrappers shared by every module of the model. */
module Results {

  /** A value that may be missing: the model's reading of JavaScript's `null`/`undefined`/`NaN` results. */
  datatype Option<+T> = None | Some(value: T) {
    function GetOr(default: T): T {
      match this
      case Some(v) => v
      case None => default
    }
  }

  /** The verdict of a validation pass: either every rule held, or the first rule that failed. */
  datatype Outcome<+E> = Pass | Fail(error: E)
}
