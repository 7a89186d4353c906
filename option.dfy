/** An optional value, used where the C code returns a value or nothing. */
module Optional {

  datatype Option<T> = None | Some(value: T)
}
