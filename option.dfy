/** The optional value used for "no match" results and for inputs that failed
    to parse. */
module Options {
  datatype Option<T> = None | Some(value: T)
}
