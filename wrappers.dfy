/** Optional values, standing for Python's `None`-or-value returns. */
module Wrappers {

  datatype Option<+T> = None | Some(value: T) {

    /** The value, or `default` when there is none (Python's `d.get(k, default)`). */
    function GetOr(default: T): T {
      match this
      case Some(v) => v
      case None => default
    }
  }

  /**
   * How an operator ends: the `{'FINISHED'}`, `{'CANCELLED'}` and `{'ERROR'}` results, or
   * `Raised` for an uncaught Python exception (whatever changed before it stays changed).
   */
  datatype Status = Finished | Cancelled | Error | Raised

  /** A helper's result, or an exception it does not catch. */
  datatype Outcome<+T> = Returned(value: T) | Raises
}
