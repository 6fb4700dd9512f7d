// The optional value used where Python returns None.

module Options {

  datatype Option<T> = None | Some(value: T)
}
