/** The usual optional value, for recognisers and parsers that may fail. */
module Wrappers {
  datatype Option<+T> = None | Some(value: T)
}
