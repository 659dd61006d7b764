/** The optional value the hit tests return in place of a nullable pointer. */
module Optional {

  datatype Option<+T> = None | Some(value: T)
}
