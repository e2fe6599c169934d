/** The optional value used for nullable PHP values (a JSON `null`, a cache miss). */
module Wrappers {
  datatype Option<+T> = None | Some(value: T)
}
