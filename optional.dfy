/** A value that may be absent: PHP's null, a failed lookup, a missing sender. */
module Optional {

  datatype Option<+T> = None | Some(value: T)
}
