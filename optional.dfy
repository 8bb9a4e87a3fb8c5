/** A value that may be absent: the model of an optional field or of a nullable state. */
module Optional {

  datatype Option<+T> = None | Some(value: T)

}
