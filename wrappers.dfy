/** Optional values: a SQL NULL, a missing query parameter, a failed fetch. */
module Wrappers {

  datatype Option<+T> = None | Some(value: T)
}
