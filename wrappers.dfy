/** Optional values, standing for C#'s `null` and `Nullable<T>`. */
module Wrappers {
  datatype Option<+T> = None | Some(value: T)
}
