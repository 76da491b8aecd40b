/** The usual optional value; it stands for C's "NULL or a valid pointer" and for a file that may be absent. */
module Options {
  datatype Option<+T> = None | Some(value: T)
}
