/** Optional values: a byte the library never writes, an absent handler. */
module Wrappers {
  datatype Option<+T> = None | Some(value: T)
}
