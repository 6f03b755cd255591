/** The optional value used for lookups and parses that can fail. */
module Options {

  datatype Option<+T> = None | Some(value: T)
}
