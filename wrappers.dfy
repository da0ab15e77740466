/** Small shared value types: an optional value. */
module Wrappers {
  datatype Option<T> = None | Some(value: T)
}
