/** A value that may be absent: the source's `undefined` and SQL's missing row. */
module Options {
  datatype Option<+T> = None | Some(value: T)
}
