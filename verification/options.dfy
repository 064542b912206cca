/** An optional value, for Java references that may be null and for faults that may
    not occur. */
module Options {
  datatype Option<+T> = None | Some(value: T)
}
