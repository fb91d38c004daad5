/** Optional values: the `None` / `null` results of the modelled code. */
module Wrappers {
  datatype Option<+T> = None | Some(value: T)
}
