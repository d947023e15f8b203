/** A value that may be absent: the model of C#'s nullable values and of SQL NULL. */
module Optional {
  datatype Option<T> = None | Some(value: T) {
    /** The value, or `default` when absent (C#'s `??` operator). */
    function GetOr(default: T): T {
      match this
      case Some(v) => v
      case None => default
    }
  }
}
