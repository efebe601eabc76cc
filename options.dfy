/** The optional value used for a task that may still be running. */
module Options {

  datatype Option<+T> = None | Some(value: T)
}
