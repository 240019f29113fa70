/** Optional values: a Java `Integer` that may be null, a Python `Optional[int]`. */
module Options {
  datatype Option<+T> = None | Some(value: T)
}
