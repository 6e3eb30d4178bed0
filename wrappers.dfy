/** Optional values: a missing array key, a failed parse. */
module Wrappers {

  datatype Option<+T> = None | Some(value: T)
}
