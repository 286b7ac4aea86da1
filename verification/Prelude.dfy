/** The optional value used throughout: the source's `Option<T>`. */
module Prelude {
  datatype Option<+T> = None | Some(value: T)
}
