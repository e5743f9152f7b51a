/** Optional values, standing in for the C idiom of a NULL pointer or a missing protobuf field. */
module Wrappers {

  datatype Option<+T> = None | Some(value: T)
}
