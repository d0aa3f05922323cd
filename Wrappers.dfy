/** Nullable values of the source (`string?`) and its failure outcomes. */
module Wrappers {

  /** `None` stands for C#'s `null`. */
  datatype Option<+T> = None | Some(value: T)
  {
    /** The `??` operator: the value, or `default` when null. */
    function GetOr(default: T): T
    {
      match this
      case Some(v) => v
      case None => default
    }
  }
}
