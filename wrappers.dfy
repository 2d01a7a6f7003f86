/** Optional values, standing for JavaScript's "undefined or a value". */
module Wrappers {

  datatype Option<+T> = None | Some(value: T)
}
