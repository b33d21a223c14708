/** The optional value used for a node's mount root and for lookups that may
    find nothing. */
module Options {
  datatype Option<+T> = None | Some(value: T)
}
