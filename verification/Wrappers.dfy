/** What a partial operation gives back. */
module Wrappers {
  datatype Option<T> = None | Some(value: T)
}
