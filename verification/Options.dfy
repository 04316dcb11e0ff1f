/** The conventional Some/None datatype, used for SQL NULL and for "no row". */
module Options {
  datatype Option<+T> = None | Some(value: T)
}
