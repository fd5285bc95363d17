/** The optional result of `push_sample` (`std::optional`). */
module Wrappers {
  datatype Option<+T> = None | Some(value: T)
}
