/** Optional values, used for "not found" answers. */
module Wrappers {

  datatype Option<+T> = None | Some(value: T)
}
