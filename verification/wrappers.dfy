/** Optional values: SQL NULL, Python None, and operations that raise. */
module Wrappers {

  datatype Option<+T> = None | Some(value: T)
}
