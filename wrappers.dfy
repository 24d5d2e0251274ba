/** The optional-value wrapper used throughout the model (a null pointer or an unset std::function). */
module Wrappers {
  datatype Option<+T> = None | Some(value: T)
}
