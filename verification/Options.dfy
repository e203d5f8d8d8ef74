/** The two result types the whole project uses for values that may be missing. */
module Options {
  /** A nullable value: `None` stands for the source's null. */
  datatype Option<+T> = None | Some(value: T)

  /** A computation that may raise. */
  datatype Result<+T, +E> = Ok(value: T) | Raise(error: E)
}
