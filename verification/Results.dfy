/** Success-or-failure results; a failure stands for an exception the source throws. */
module Results {
  datatype Option<+T> = None | Some(value: T)
}
