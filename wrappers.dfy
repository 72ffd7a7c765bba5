/** The optional value that stands for a JavaScript call that can fail or yield nothing. */
module Wrappers {
  datatype Option<T> = None | Some(value: T)
}
