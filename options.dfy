/** The optional value that stands for a C reference that may be NULL. */
module Options {

  datatype Option<+T> = None | Some(value: T)

}
