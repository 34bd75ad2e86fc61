/** The one result type shared by the models: a value that may be missing, as NULL says in the source. */
module Options {
  datatype Option<+T> = None | Some(value: T)
}
