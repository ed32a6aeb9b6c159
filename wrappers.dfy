/** Optional values: PHP's `?string` (a path or null) is an `Option<string>`. */
module Wrappers {

  datatype Option<+T> = None | Some(value: T)
}
