/** Option, for JSON fields that may be absent and keys that may be missing. */
module Wrappers {

  datatype Option<+T> = None | Some(value: T)
}
