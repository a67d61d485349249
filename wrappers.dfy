/** Optional values, for the source's `undefined` / missing results. */
module Wrappers {
  datatype Option<+T> = None | Some(value: T)
}
