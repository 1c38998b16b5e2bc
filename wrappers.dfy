/** The optional-value wrapper shared by the model's modules. */
module Wrappers {

  /** A value that may be absent: a missing configuration key, a command
      whose output was not captured. */
  datatype Option<+T> = None | Some(value: T)
  {
    /** The wrapped value, or `default` when absent (Python's `dict.get(key, default)`). */
    function GetOr(default: T): T
    {
      match this
      case Some(v) => v
      case None => default
    }
  }
}
