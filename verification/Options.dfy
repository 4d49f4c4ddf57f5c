/** Optional values, for null pointers and reads that fail. */
module Options {
  datatype Option<T> = None | Some(value: T)
}
