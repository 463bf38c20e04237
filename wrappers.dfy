/** Optional values: a description that may be absent, a character that may not occur. */
module Wrappers {

  datatype Option<+T> = None | Some(value: T)
}
