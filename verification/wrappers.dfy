/** Optional values, used where a decoding step can fail. */
module Wrappers {

  datatype Option<+T> = None | Some(value: T)

}
