/** A value that may be absent: nothing found, nothing claimed, nothing parsed. */
module Options {
  datatype Option<T> = None | Some(value: T)
}
