/** Optional values, used wherever the source has an "invalid" or "absent" state. */
module Wrappers {

  datatype Option<+T> = None | Some(value: T)
}
