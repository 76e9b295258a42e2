/** Python's `None`-or-value results. */
module Options {
  datatype Option<T> = None | Some(value: T)
  {
    /** `x or default` for a value that is never falsy when present. */
    function GetOr(default: T): T
    {
      match this
      case Some(v) => v
      case None => default
    }
  }
}
