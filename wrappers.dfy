/** The optional value used wherever JavaScript yields `undefined` or a
    missing result. */
module Wrappers {

  datatype Option<+T> = None | Some(value: T)
}
