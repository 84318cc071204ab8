/** The usual optional-value datatype, used for "no move found" and empty squares. */
module Options {
  datatype Option<+T> = None | Some(value: T)
}
