/** The optional value used wherever the source returns a pointer that may be null
    or an access that may throw. */
module Options {

  datatype Option<+T> = None | Some(value: T)
}
