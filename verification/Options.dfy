/** A value that may be missing: undefined, NaN or an invalid Date in the original. */
module Options {
  datatype Option<+T> = None | Some(value: T)
}
