/** The optional value used for JavaScript's `undefined` results and for `{}` placeholders. */
module Optional {

  datatype Option<+T> = None | Some(value: T)
}
