/** The optional value a call to the iterator's `next` hands back. */
module Options {

  datatype Option<+T> = None | Some(value: T)
}
