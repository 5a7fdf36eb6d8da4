/** Optional values and `INVALID_STATE` outcomes shared by the tree model. */
module Wrappers {

  /** A value that may be absent (`undefined` in the source). */
  datatype Option<+T> = None | Some(value: T)

  /** Outcome of an operation that the source may abort by throwing `INVALID_STATE`. */
  datatype Result<+R> = Ok(value: R) | InvalidState
}
