/** The optional value that stands for the source's `null`, `undefined` and `Option`. */
module Wrappers {
  datatype Option<+T> = None | Some(value: T)
}
