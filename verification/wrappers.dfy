/** Optional values: an absent hash field, a failed lookup, a missing first match. */
module Wrappers {

  datatype Option<+T> = None | Some(value: T)
}
