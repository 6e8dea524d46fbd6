/** The optional values of the program (`None` or a tuple). */
module Options {

  datatype Option<T> = None | Some(value: T)
}
