/** The optional values shared by the modules of this project. */
module Options {
  datatype Option<+T> = None | Some(value: T)
}
