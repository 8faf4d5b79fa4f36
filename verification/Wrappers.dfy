/** Optional values, as returned by the allocators and containers. */
module Wrappers {
  datatype Option<+T> = None | Some(value: T)
}
