/** Rust's `Option<T>`, with the one combinator the grid uses. */
module Options {

  /** An optional value: `None`, or `Some(value)`. */
  datatype Option<T> = None | Some(value: T)
  {
    /** `Option::or`: this value when it is present, and `other` otherwise. */
    function Or(other: Option<T>): Option<T>
    {
      match this
      case Some(_) => this
      case None => other
    }
  }
}
