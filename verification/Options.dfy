/** Optional values, used wherever the source works with None or raises. */
module Options {
  datatype Option<+T> = None | Some(value: T)
}
