/** Optional values, used where the Go code returns a nil pointer or a (value, error) pair. */
module Wrappers {

  datatype Option<+T> = None | Some(value: T)
}
