/** The `Option` datatype the model uses for Rust's `Option<T>`. */
module Optional {

  datatype Option<+T> = None | Some(value: T) {

    /** `unwrap_or(default)`: the carried value, or `default` for `None`. */
    function GetOr(default: T): T
    {
      match this
      case Some(v) => v
      case None => default
    }
  }
}
