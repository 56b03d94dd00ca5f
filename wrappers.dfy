/** Optional values: a load that may find nothing, an oracle that may throw. */
module Wrappers {

  datatype Option<+T> = None | Some(value: T)
}
