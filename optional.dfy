/** The optional value returned by lookups and by the external collaborators. */
module Optional {

  datatype Option<+T> = None | Some(value: T)
}
