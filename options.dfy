/** The optional value used for lookups that may miss (a JavaScript `undefined`). */
module Options {

  datatype Option<T> = None | Some(value: T)

}
