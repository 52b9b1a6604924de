/** The one option type the other modules share. */
module Optional {
  datatype Option<+T> = None | Some(value: T)
}
