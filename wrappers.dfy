/** Optional values: a missing JSON field, a dictionary miss, an empty query result. */
module Wrappers {

  datatype Option<+T> = None | Some(value: T)

}
