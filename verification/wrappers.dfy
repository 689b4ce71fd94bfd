/** Optional values, for the places where the game returns `None`. */
module Wrappers {

  datatype Option<+T> = None | Some(value: T)
}
