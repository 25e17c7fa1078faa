/** An optional value, standing for a Go pointer that may be nil. */
module Optional {

  datatype Option<T> = None | Some(value: T)

}
