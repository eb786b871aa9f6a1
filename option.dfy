/** Optional values: a key that may be missing from a JSON object. */
module Optional {

  datatype Option<+T> = None | Some(value: T)
  {
    /** `d.get(key, default)` */
    function GetOr(default: T): T
    {
      match this
      case Some(v) => v
      case None => default
    }
  }
}
