/** An optional value: the model's stand-in for a NULL pointer or a "not found" result. */
module Options {

  datatype Option<+T> = None | Some(value: T)
}
