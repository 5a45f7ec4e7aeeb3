/** The network boundary: one HTTP exchange is an input value, never performed. */
module Http {
  import opened Wrappers
  import opened Exceptions

  /** What `requests.get(...)` produced: no reply at all, or a status code and the
      body as the parser reads it (None when it does not parse). */
  datatype Reply<T> = NoReply | Reply(status: int, body: Option<T>)

  /** `raise_for_status` fails for the client and server error ranges. */
  predicate IsErrorStatus(status: int)
  {
    400 <= status < 600
  }

  /** `requests.get`, `raise_for_status`, then parsing the body, in that order. */
  function Received<T>(reply: Reply<T>): (r: Result<T, Exception>)
    ensures r.Success? <==> reply.Reply? && !IsErrorStatus(reply.status) && reply.body.Some?
    ensures r.Success? ==> r.value == reply.body.value
    ensures reply.NoReply? ==> r == Failure(ConnectionError)
    ensures reply.Reply? && IsErrorStatus(reply.status) ==> r == Failure(HttpError(reply.status))
    ensures reply.Reply? && !IsErrorStatus(reply.status) && reply.body.None? ==> r == Failure(DecodeError)
  {
    match reply
    case NoReply => Failure(ConnectionError)
    case Reply(status, body) =>
      if IsErrorStatus(status) then Failure(HttpError(status))
      else if body.None? then Failure(DecodeError)
      else Success(body.value)
  }
}
