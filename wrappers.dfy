/** The Option datatype used for every operation that the source lets fail
    by raising an exception. */
module Wrappers {

  datatype Option<+T> = None | Some(value: T)

}
