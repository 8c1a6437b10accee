/** Option and Result types standing in for Java's nullable references and thrown exceptions. */
module Wrappers {

  /** A possibly absent value; `None` plays the role of a Java `null` reference. */
  datatype Option<+T> = None | Some(value: T) {

    /** The carried value, or `default` when absent. */
    function GetOr(default: T): T
    {
      match this
      case Some(v) => v
      case None => default
    }
  }

  /** Either a computed value or the error that a Java method would have thrown instead. */
  datatype Result<+R, +E> = Success(value: R) | Failure(error: E)
}
