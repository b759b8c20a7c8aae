/** Optional values: `None` stands for PHP's `null` return. */
module Wrappers {
  datatype Option<T> = None | Some(value: T)
}
