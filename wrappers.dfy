/** The optional value used wherever the source has a nullable result or a
    call that may throw and is caught by its caller. */
module Wrappers {

  datatype Option<+T> = None | Some(value: T)
}
