/** Optional values: a nullable column, a reply that did not arrive in time. */
module Wrappers {
  datatype Option<+T> = None | Some(value: T)
}
