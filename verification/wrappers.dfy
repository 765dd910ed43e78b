/** Optional values, for the renderer's operations whose native arithmetic
    can abort. */
module Wrappers {

  datatype Option<+T> = None | Some(value: T)
}
