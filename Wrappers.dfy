/** A value that may be absent: a read past the end of a string, or the
    editor when no document is open. */
module Wrappers {
  datatype Option<T> = None | Some(value: T)
}
