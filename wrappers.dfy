/** Optional values, used where the source either yields something or nothing. */
module Wrappers {

  datatype Option<+T> = None | Some(value: T)

}
