/** Optional values, for the optional fields of a route's `meta` record. */
module Wrappers {
  datatype Option<+T> = None | Some(value: T)
}
