/** The Option type used where a view may find nothing (a missing
    query parameter, an empty form field). */
module Wrappers {

  datatype Option<+T> = None | Some(value: T)
}
