/** Optional values, for the service's `undefined`/`null` and for parses that can fail. */
module Wrappers {
  datatype Option<+T> = None | Some(value: T)
}
