/** Option and Result, the failure-carrying shapes the model uses in place of
    JavaScript's `null`/`undefined` and of a thrown exception. */
module Wrappers {

  /** `None` stands for JavaScript `null` or `undefined`. */
  datatype Option<+T> = None | Some(value: T)

  /** Either the value a handler produced or the error that stopped it. */
  datatype Result<+R, +E> = Success(value: R) | Failure(error: E) {

    /** The value produced, or `default` when the computation failed. */
    function GetOr(default: R): R {
      match this
      case Success(v) => v
      case Failure(_) => default
    }
  }
}
