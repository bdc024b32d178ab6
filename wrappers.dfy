/** The optional value used for "no result" across the model. */
module Wrappers {
  datatype Option<T> = None | Some(value: T)
}
