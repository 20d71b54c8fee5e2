/** The optional value used for partial decoders in this model. */
module Wrappers {
  datatype Option<+T> = None | Some(value: T)
}
