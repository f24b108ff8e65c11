/** Java's nullable references, made explicit. */
module Options {

  /** `None` stands for Java's `null`; `Some(v)` for a non-null reference to `v`. */
  datatype Option<+T> = None | Some(value: T)
}
