/** An optional value: the NULL or -1 returns of the source become None. */
module Options {
  datatype Option<+T> = None | Some(value: T)
}
