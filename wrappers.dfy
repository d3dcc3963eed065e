/** The Some/None type used for "a pair of factors or nothing" and for partial helpers. */
module Wrappers {

  datatype Option<+T> = None | Some(value: T)
}
