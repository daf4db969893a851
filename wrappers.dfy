/** The Option type used for "no order in this message" and "no match at this position". */
module Wrappers {

  datatype Option<+T> = None | Some(value: T)
}
