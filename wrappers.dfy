/** The Option datatype used for results that may be absent (a failed file read,
    a regular expression that does not match). */
module Wrappers {

  datatype Option<+T> = None | Some(value: T)
}
