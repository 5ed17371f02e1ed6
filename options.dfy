/** The optional value used wherever the application returns `null` for "no data". */
module Options {

  datatype Option<+T> = None | Some(value: T)
}
