/** A value that may be absent: JavaScript's `null` for a missing stored
    setting or for "nothing selected". */
module Optional {
  datatype Option<T> = None | Some(value: T)
}
