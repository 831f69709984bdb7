/** Optional values, standing in for C++ calls that either yield a value or
    throw / return nothing. */
module Wrappers {

  datatype Option<+T> = None | Some(value: T)
}
