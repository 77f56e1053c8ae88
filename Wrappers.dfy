/** Optional values: a field of a record that may or may not be present. */
module Wrappers {

  datatype Option<+T> = None | Some(value: T)
}
