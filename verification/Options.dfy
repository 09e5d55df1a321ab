// A result that may be missing: a null pointer or an error code of the source.
module Options {
  datatype Option<T> = None | Some(value: T)
}
