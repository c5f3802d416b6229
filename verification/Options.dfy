// A value that may be missing: None in Python, a NULL pointer in C, an exception
// where the text says so.
module Options {
  datatype Option<T> = None | Some(value: T)
}
