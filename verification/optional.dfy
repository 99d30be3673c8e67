/** The Some/None datatype the model uses wherever the bot reads a row that may be
    missing (a `None` returned by a database getter) or an external call that may
    yield nothing. */
module Optional {

  datatype Option<+T> = None | Some(value: T) {

    /** The wrapped value, or `default` when there is none. */
    function GetOr(default: T): T {
      match this
      case Some(v) => v
      case None => default
    }
  }
}
