/** An optional value: a DOM element or attribute that may be missing. */
module Options {

  datatype Option<+T> = None | Some(value: T)
}
