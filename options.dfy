/** An optional value, for lookups that may find nothing and texts that may be absent. */
module Options {
  datatype Option<T> = None | Some(value: T)
}
