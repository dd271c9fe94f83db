/** The optional-value datatype the model uses wherever the source returns
    `None`, reads an attribute that may be missing, or calls something that
    may raise. */
module Options {

  datatype Option<+T> = None | Some(value: T) {

    /** The wrapped value, or `default` when there is none. */
    function GetOr(default: T): T {
      match this
      case Some(v) => v
      case None => default
    }
  }
}
