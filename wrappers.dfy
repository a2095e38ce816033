/** Optional values, used for "no image loaded", "text did not parse" and the like. */
module Wrappers {

  datatype Option<+T> = None | Some(value: T)
}
