/**
 The optional value the parsers and the stores return when there may be no result
 (Python's `None`).
 */
module Wrappers {

  datatype Option<T> = None | Some(value: T)
}
