/** Small shared vocabulary. */
module Base {

  /** A value that may be missing; `None` stands for JavaScript's `undefined`,
      `null` results and NaN, depending on where it is used. */
  datatype Option<+T> = None | Some(value: T)

}
