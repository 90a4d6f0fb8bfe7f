/** Values exchanged with the social network's HTTP API, the entries of the
    process-wide error log, the exceptions that can end a call, and the
    `APIError` object the program builds from a reply that carries no
    `response` key. */
module Api {

  type GroupId = int
  type UserId = int

  datatype Option<+T> = None | Some(value: T)

  /** The `error` object of a reply: a code and its `error_msg` text. */
  datatype RemoteError = RemoteError(code: int, msg: string)

  /** A decoded reply object. Each field is one optional key of the object:
      `response` (the payload), `error` and `execute_errors`. */
  datatype Envelope<P> = Envelope(
    response: Option<P>,
    error: Option<RemoteError>,
    executeErrors: Option<seq<RemoteError>>)

  /** One entry of the error log. */
  datatype LogEntry =
    | TimeoutNote(detail: string)
      // the message of a read timeout that was retried
    | ErrorObject(object: RemoteError)
      // the `error` object of a reply
    | ErrorReply(replyError: Option<RemoteError>, executeErrors: seq<RemoteError>)
      // a whole reply carrying `execute_errors` (and no `response`)

  /** What an `APIError` prints: the `error_msg` text or the `execute_errors` list. */
  datatype Message = ErrorMsg(text: string) | ExecuteErrors(errors: seq<RemoteError>)

  /** An `APIError`; `None` stands for an attribute the constructor never set. */
  datatype ApiError = ApiError(body: Option<LogEntry>, message: Option<Message>)

  /** The exceptions that escape a call and end it without a result. */
  datatype Exception =
    | ReadTimeout(msg: string)
      // raised by the request helper once every attempt timed out
    | RequestFailure(detail: string)
      // any other transport exception (a connect timeout, a refused connection)
    | AttributeError
      // `message` or `body` read on an APIError that never set it
    | IndexError
      // the first element of an empty `response` list

  datatype Result<+T> = Ok(value: T) | Raised(exc: Exception)

  /** The outcome of a call together with the log entries it appended, in
      order. The entries stay in the log when the call raises. */
  datatype Call<+T> = Call(result: Result<T>, log: seq<LogEntry>)

  /** The `APIError` constructor: `error` sets both attributes, and
      `execute_errors`, checked second, overrides both; a reply with neither
      key leaves both unset. */
  function NewApiError<P>(reply: Envelope<P>): (e: ApiError)
    ensures e.body.Some? <==> e.message.Some?
    ensures e.message.Some? <==> reply.error.Some? || reply.executeErrors.Some?
    ensures reply.executeErrors.Some? ==>
              && e.message == Some(ExecuteErrors(reply.executeErrors.value))
              && e.body == Some(ErrorReply(reply.error, reply.executeErrors.value))
    ensures reply.executeErrors.None? && reply.error.Some? ==>
              && e.message == Some(ErrorMsg(reply.error.value.msg))
              && e.body == Some(ErrorObject(reply.error.value))
  {
    var afterError :=
      if reply.error.Some?
      then ApiError(Some(ErrorObject(reply.error.value)), Some(ErrorMsg(reply.error.value.msg)))
      else ApiError(None, None);
    if reply.executeErrors.Some?
    then ApiError(Some(ErrorReply(reply.error, reply.executeErrors.value)),
                  Some(ExecuteErrors(reply.executeErrors.value)))
    else afterError
  }

  /** The `except APIError` clause shared by the per-chunk and per-group
      loops: print `message`, then append `body` to the log. Reading an
      attribute the constructor never set raises `AttributeError`. */
  function Report(e: ApiError): (r: Result<LogEntry>)
    ensures r.Ok? <==> e.message.Some? && e.body.Some?
    ensures r.Ok? ==> r.value == e.body.value
    ensures r.Raised? ==> r.exc == AttributeError
  {
    if e.message.None? then Raised(AttributeError)
    else if e.body.None? then Raised(AttributeError)
    else Ok(e.body.value)
  }

  /** A reply without `response` is logged and skipped exactly when it
      carries `error` or `execute_errors`; otherwise handling it raises. */
  lemma ReportedIffErrorKey<P>(reply: Envelope<P>)
    ensures Report(NewApiError(reply)).Ok? <==> reply.error.Some? || reply.executeErrors.Some?
    ensures Report(NewApiError(reply)).Raised? ==> Report(NewApiError(reply)).exc == AttributeError
  {
  }
}
