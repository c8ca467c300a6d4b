/** The part of an HTTP response the controllers decide. */
module Http {
  import opened Domain

  /**
   * The statuses the handlers answer with, plus the 500 Spring answers when
   * a service's `RuntimeException` escapes a handler.
   */
  datatype Status = Ok | Created | Accepted | NoContent | NotFound | InternalServerError
  {
    function Code(): nat
    {
      match this
      case Ok => 200
      case Created => 201
      case Accepted => 202
      case NoContent => 204
      case NotFound => 404
      case InternalServerError => 500
    }
  }

  /** A handler's effect: the store afterwards, the status and the optional body. */
  datatype Reply<S, T> = Reply(store: S, status: Status, body: Option<T>)
}
