/** An optional value: a parsed status, a free slot index. */
module Options {
  datatype Option<T> = None | Some(value: T)
}
