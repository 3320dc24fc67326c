/** The optional value used for "no cell found" and "no path found". */
module Options {

  /** Python's `None` versus a present value. */
  datatype Option<+T> = None | Some(value: T)
}
