/** The Option type that stands in for JavaScript's `null` result. */
module Wrappers {

  datatype Option<+T> = None | Some(value: T)
}
