/** A value that may be absent, such as the report a callback is handed. */
module Options {
  datatype Option<T> = None | Some(value: T)
}
