module Options {
  /** A value that may be missing: a null buffer pointer, a failed assertion, an aborted call. */
  datatype Option<T> = None | Some(value: T)
}
