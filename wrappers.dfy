/** Optional values, standing in for the nullable pointers of the driver. */
module Wrappers {

  datatype Option<+T> = None | Some(value: T)
}
