/** The optional-value datatype used for "no match" and "no frame". */
module Options {

  /** Either no value, or some value of type T. */
  datatype Option<+T> = None | Some(value: T)
}
