/** Optional values, used where the original code returns "nothing" or fails on a lookup. */
module Wrappers {

  datatype Option<T> = None | Some(value: T)

}
