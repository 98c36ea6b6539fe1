/** The optional value used for "a match or none" and "a record or null". */
module Wrappers {
  datatype Option<+T> = None | Some(value: T)
}
