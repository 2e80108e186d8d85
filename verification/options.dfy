/** Optional values: Python's `None` versus a present object, Java's `null` versus a reference. */
module Options {

  datatype Option<+T> = None | Some(value: T)
}
