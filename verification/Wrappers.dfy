/** The value or the lack of one, wherever the source returns a pointer or null. */
module Wrappers {
  datatype Option<+T> = None | Some(value: T)
}
