/** Optional values: a load or a parse that either yields a value or raised. */
module Wrappers {
  datatype Option<+T> = None | Some(value: T)
}
