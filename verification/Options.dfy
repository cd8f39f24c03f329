/** A value that may be missing. */
module Options {
  datatype Option<T> = None | Some(value: T)

  /** The first of two values that is there. */
  function OrElse<T>(a: Option<T>, b: Option<T>): Option<T> { if a.Some? then a else b }
}
