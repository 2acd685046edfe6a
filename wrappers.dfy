/** Option stands for a possibly-null shared pointer: None is the null pointer. */
module Wrappers {
  datatype Option<+T> = None | Some(value: T)
}
