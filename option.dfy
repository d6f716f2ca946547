/** The optional-value type used for parses and searches that may find nothing. */
module Optional {

  datatype Option<+T> = None | Some(value: T)
}
