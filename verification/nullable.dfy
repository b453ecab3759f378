/** C# null references, as values. */
module Nullable {

  /** A reference that may be null: `None` stands for C# `null`. */
  datatype Option<+T> = None | Some(value: T) {

    /** The value, or `default` when null (the C# `??` operator). */
    function GetOr(default: T): (r: T)
      ensures Some? ==> r == value
      ensures None? ==> r == default
    {
      match this
      case Some(v) => v
      case None => default
    }
  }
}
