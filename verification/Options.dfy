/** Optional values, for what the source writes as `undefined` or `null`. */
module Options {
  datatype Option<T> = None | Some(value: T)
}
