/** Optional values for queries whose answer may be absent. */
module Wrappers {

  datatype Option<+T> = None | Some(value: T)
}
