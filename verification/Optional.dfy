/** A value that may be missing, shared by the components. */
module Optional {
  datatype Option<+T> = None | Some(value: T)
}
