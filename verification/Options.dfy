/** A value that may be missing: the firmware's error returns that carry no reason. */
module Options {
  datatype Option<+T> = None | Some(value: T)
}
