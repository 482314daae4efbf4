/** Option, and the reply every handler gives: a value, or the failure it answered with. */
module Wrappers {

  datatype Option<+T> = None | Some(value: T) {

    /** The value, or `default` when there is none (Python's `dict.get(key, default)`). */
    function GetOr(default: T): T {
      if Some? then value else default
    }
  }

  /** Why a handler refused a request. */
  datatype Failure =
    | MissingFields    // create_user: username, email or password absent
    | UsernameExists   // create_user: the username belongs to some user
    | EmailExists      // create_user: the email belongs to some user
    | UserIdRequired   // mark_attendance: no user_id in the body
    | UserNotFound     // no user has the id
    | RecordNotFound   // no attendance record has the id
    | ServerError      // an exception was caught, the session rolled back
  {
    /** The HTTP status the handler answers a failure with. */
    function Code(): (c: int)
      ensures c == 400 <==> (MissingFields? || UsernameExists? || EmailExists? || UserIdRequired?)
      ensures c == 404 <==> (UserNotFound? || RecordNotFound?)
      ensures c == 500 <==> ServerError?
    {
      match this
      case MissingFields => 400
      case UsernameExists => 400
      case EmailExists => 400
      case UserIdRequired => 400
      case UserNotFound => 404
      case RecordNotFound => 404
      case ServerError => 500
    }
  }

  datatype Reply<+T> = Ok(value: T) | Fail(failure: Failure)
}
