/** The optional-value datatype used for lookups, searches and parses. */
module Wrappers {

  datatype Option<+T> = None | Some(value: T)
}
