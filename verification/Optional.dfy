/** A nullable value. */
module Optional {
  datatype Option<+T> = None | Some(value: T)
}
