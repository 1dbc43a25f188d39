/** A value that may be missing: a file, an option, a second nobody heard. */
module Options {
  datatype Option<T> = None | Some(value: T)
}
