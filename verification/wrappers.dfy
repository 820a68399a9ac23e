/** Optional values, used for data the host may or may not supply. */
module Wrappers {

  /** A value that may be absent: an unset array entry, a missing JSON field, a failed fetch. */
  datatype Option<+T> = None | Some(value: T)
}
