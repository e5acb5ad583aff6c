/** The optional value used for a timestamp that may be missing and for a
    countdown that is shown only in some states. */
module Wrappers {
  datatype Option<+T> = None | Some(value: T)
}
