/** Rust's `Option`, as the hit functions and `Ray::new` use it. */
module Options {

  datatype Option<+T> = None | Some(value: T) {

    /** `unwrap_or(default)`. */
    function GetOr(default: T): (r: T)
      ensures Some? ==> r == value
      ensures None? ==> r == default
    {
      match this
      case Some(v) => v
      case None => default
    }
  }
}
