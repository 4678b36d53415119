/** The optional value returned by the parser and by the search. */
module Options {

  datatype Option<T> = None | Some(value: T)
}
