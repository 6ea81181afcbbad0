/** Optional values: a null reference on the .NET side is `None` here. */
module Wrappers {

  datatype Option<+T> = None | Some(value: T)
}
