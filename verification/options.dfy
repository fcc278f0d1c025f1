/** An optional value, for results the C code signals with a sentinel or a null pointer. */
module Options {
  datatype Option<T> = None | Some(value: T)
}
