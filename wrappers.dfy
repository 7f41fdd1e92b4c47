/** A value that may be absent: a missing capture, a missing member, or a
    conversion that throws. */
module Wrappers {

  datatype Option<T> = None | Some(value: T)
}
