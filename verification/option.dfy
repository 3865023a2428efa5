/** An optional value: the model's stand-in for a nil result. */
module Optional {

  datatype Option<+T> = None | Some(value: T)
}
