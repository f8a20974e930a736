/** The optional value used for the decoders' "no result" path. */
module Wrappers {
  datatype Option<+T> = None | Some(value: T)
}
