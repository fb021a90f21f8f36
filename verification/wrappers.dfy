/** Optional values, standing in for the nullable pointers of the renderer. */
module Wrappers {

  /** `None` plays the role of `nullptr`. */
  datatype Option<+T> = None | Some(value: T)
  {
    /** Returns the encapsulated value, or `default` when there is none. */
    function GetOr(default: T): T
    {
      match this
      case Some(v) => v
      case None => default
    }
  }
}
