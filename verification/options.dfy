/** The absence value the date engine uses for "not computable". */
module Options {

  datatype Option<+T> = None | Some(value: T)
}
