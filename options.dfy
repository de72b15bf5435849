/** The optional result the C code signals with NULL. */
module Options {

  datatype Option<+T> = None | Some(value: T)
}
