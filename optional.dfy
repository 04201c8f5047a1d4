/** An optional value: `None` where the source has Python's `None`. */
module Optional {

  datatype Option<+T> = None | Some(value: T)
}
