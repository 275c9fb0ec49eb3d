/** Optional values, used for absent elements and cleared timer handles. */
module Wrappers {
  datatype Option<+T> = None | Some(value: T)
}
