/** Optional values: Go's nil error and nil slice. */
module Wrappers {

  datatype Option<+T> = None | Some(value: T)
}
