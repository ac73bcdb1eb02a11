/** Optional values and handler replies shared by every controller of the model. */
module Wrappers {

  /** A nullable or possibly-absent value (`null`/`undefined` in the source). */
  datatype Option<+T> = None | Some(value: T) {
    function GetOr(default: T): T {
      match this
      case Some(v) => v
      case None => default
    }
  }

  /** The HTTP reply of a handler: a success with its status code and body,
      or an error with its status code and the source's message text. */
  datatype Result<+T> = Ok(status: nat, value: T) | Err(status: nat, message: string)

  const INTERNAL_ERROR := "Internal server error"
}
