/** The optional value used for the decoders' failure path. */
module Wrappers {

  datatype Option<+T> = None | Some(value: T)
}
