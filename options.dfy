/** The optional value that the parsing functions return instead of raising. */
module Options {

  datatype Option<+T> = None | Some(value: T)
}
