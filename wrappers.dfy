/** The optional value used for match results and scans. */
module Wrappers {

  datatype Option<+T> = None | Some(value: T)
}
