/** The optional value used for parse results and for "has the computation run yet". */
module Wrappers {

  datatype Option<+T> = None | Some(value: T)
}
