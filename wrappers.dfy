/** The optional value the reconstruction uses for "no predecessor yet". */
module Wrappers {

  datatype Option<T> = None | Some(value: T)
}
