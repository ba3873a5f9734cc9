// The optional value that the other modules return where the source returns a null pointer, 0 or -1.
module Wrappers {
  datatype Option<T> = None | Some(value: T)
}
