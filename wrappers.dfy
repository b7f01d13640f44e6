/** The optional value used for "no row selected" and "dialog cancelled". */
module Wrappers {
  datatype Option<+T> = None | Some(value: T)
}
