/** The optional-value datatype shared by every module of the model. */
module Optional {

  /** A value that may be absent: JavaScript's `undefined` / `null` results of a lookup or search. */
  datatype Option<+T> = None | Some(value: T) {

    /** The value held, or `default` when absent. */
    function GetOr(default: T): T {
      match this
      case Some(v) => v
      case None => default
    }
  }
}
