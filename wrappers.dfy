/** Optional values and the outcome of a mutation that may throw. */
module Wrappers {

  /** A value that may be absent (`null` / `undefined` in the source). */
  datatype Option<+T> = None | Some(value: T) {
    function GetOr(default: T): T {
      match this
      case Some(v) => v
      case None => default
    }
  }

  /** The errors the mutation handlers throw. */
  datatype Failure =
    | NotAuthenticated    // "Must be authenticated ..."
    | NotFoundOrDenied    // "Playlist not found or access denied"
    | NotUnique           // `.unique()` found more than one matching row

  /** The outcome of a handler that either returns a value or throws. */
  datatype Result<+T> = Ok(value: T) | Err(error: Failure)
}
