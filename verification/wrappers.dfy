/** The optional values and outcomes every handler of the engine works with. */
module Wrappers {

  /** An optional value; for request fields, None means the key was not sent. */
  datatype Option<+T> = None | Some(value: T) {

    /** The wrapped value, or the handler's default when the key was absent. */
    function GetOr(default: T): T {
      match this
      case Some(v) => v
      case None => default
    }
  }

  /** The outcome of one atomic handler: the new value, or the error it answers with. */
  datatype Result<+T, +E> = Ok(value: T) | Err(error: E)

  /** A check that either passes or names the error to answer with. */
  datatype Outcome<+E> = Pass | Fail(error: E)
}
