/** A value that may be absent: an optional attribute, a failed parse, a null reference. */
module Optional {

  datatype Option<+T> = None | Some(value: T)
}
