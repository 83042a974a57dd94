/** Optional value, used for absent city data and coordinates. */
module Wrappers {

  datatype Option<+T> = None | Some(value: T)

}
