/** The optional value used wherever PHP code answers `null` for "nothing here". */
module Options {

  datatype Option<+T> = None | Some(value: T)

}
