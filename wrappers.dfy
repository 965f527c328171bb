/** The optional value used for regular-expression matches and scans. */
module Wrappers {

  datatype Option<+T> = None | Some(value: T)

}
