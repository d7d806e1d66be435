/** The optional value used wherever the source answers "None" for "could not". */
module Options {
  datatype Option<+T> = None | Some(value: T)
}
