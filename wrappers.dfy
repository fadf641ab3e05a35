/** The optional value used by the scanners for "no match here". */
module Wrappers {

  datatype Option<+T> = None | Some(value: T)
}
