/** The request helper: one HTTP call retried while it times out while
    reading, at most `RETRY` attempts in all. The transport is an abstract
    stream of attempt outcomes: `attempt(k)` is what the k-th attempt
    (counting from 0) of this request produces. */
module Retry {
  import opened Api

  /** Attempts per request. */
  const RETRY: nat := 3

  /** The message of the timeout raised once every attempt timed out. */
  const GAVE_UP: string := "Unable to retrieve data"

  /** The outcome of one transport attempt. */
  datatype Attempt<+R> =
    | Answered(reply: R)
    | TimedOut(detail: string)
      // a read timeout: logged and retried
    | Failed(detail: string)
      // any other transport exception: never caught here

  /** The result of the first attempt that did not time out. */
  function Settle<R>(a: Attempt<R>): (r: Result<R>)
    requires !a.TimedOut?
    ensures a.Answered? ==> r == Ok(a.reply)
    ensures a.Failed? ==> r == Raised(RequestFailure(a.detail))
  {
    match a
    case Answered(reply) => Ok(reply)
    case Failed(detail) => Raised(RequestFailure(detail))
  }

  /** The request once `tried` attempts have timed out. */
  function RequestFrom<R>(attempt: nat -> Attempt<R>, tried: nat): (c: Call<R>)
    requires tried <= RETRY
    ensures tried + |c.log| <= RETRY
    ensures forall k :: tried <= k < tried + |c.log| ==> attempt(k).TimedOut?
    ensures forall j :: 0 <= j < |c.log| ==> c.log[j] == TimeoutNote(attempt(tried + j).detail)
    ensures tried + |c.log| < RETRY ==>
              !attempt(tried + |c.log|).TimedOut? && c.result == Settle(attempt(tried + |c.log|))
    ensures tried + |c.log| == RETRY ==> c.result == Raised(ReadTimeout(GAVE_UP))
    decreases RETRY - tried
  {
    if tried == RETRY then Call(Raised(ReadTimeout(GAVE_UP)), [])
    else
      match attempt(tried)
      case TimedOut(detail) =>
        var rest := RequestFrom(attempt, tried + 1);
        var c := Call(rest.result, [TimeoutNote(detail)] + rest.log);
        assert forall j :: 1 <= j < |c.log| ==> c.log[j] == rest.log[j - 1];
        c
      case _ => Call(Settle(attempt(tried)), [])
  }

  /** What `make_request` promises of a call over the attempts `attempt`:
      the log holds one note per attempt that timed out, all of them before
      the first attempt that did not; that attempt's reply (or exception) is
      the result; after `RETRY` timeouts the call raises `ReadTimeout`. */
  ghost predicate FollowsAttempts<R>(attempt: nat -> Attempt<R>, c: Call<R>)
  {
    && |c.log| <= RETRY
    && (forall k :: 0 <= k < |c.log| ==> attempt(k).TimedOut?)
    && (forall j :: 0 <= j < |c.log| ==> c.log[j] == TimeoutNote(attempt(j).detail))
    && (|c.log| < RETRY ==> !attempt(|c.log|).TimedOut? && c.result == Settle(attempt(|c.log|)))
    && (|c.log| == RETRY ==> c.result == Raised(ReadTimeout(GAVE_UP)))
  }

  /** `make_request` over the attempts `attempt`. */
  function Request<R>(attempt: nat -> Attempt<R>): (c: Call<R>)
    ensures FollowsAttempts(attempt, c)
  {
    RequestFrom(attempt, 0)
  }

  /** The attempts determine the call: two calls that both follow them are equal. */
  lemma FollowsAttemptsUnique<R>(attempt: nat -> Attempt<R>, c: Call<R>, d: Call<R>)
    requires FollowsAttempts(attempt, c) && FollowsAttempts(attempt, d)
    ensures c == d
  {
  }

  /** The request raises `ReadTimeout` exactly when the first `RETRY`
      attempts all timed out, and it returns a reply exactly when some
      attempt within the bound answered after timeouts only. */
  lemma RequestBounds<R>(attempt: nat -> Attempt<R>)
    ensures Request(attempt).result == Raised(ReadTimeout(GAVE_UP)) <==>
              forall k :: 0 <= k < RETRY ==> attempt(k).TimedOut?
    ensures Request(attempt).result.Ok? <==>
              exists k :: 0 <= k < RETRY && attempt(k).Answered? &&
                          forall j :: 0 <= j < k ==> attempt(j).TimedOut?
  {
  }

  /** Attempts after the `RETRY`-th are never made: two transports that
      agree on the first `RETRY` attempts give the same call. */
  lemma RequestUsesFirstAttempts<R>(a: nat -> Attempt<R>, b: nat -> Attempt<R>)
    requires forall k: nat :: k < RETRY ==> a(k) == b(k)
    ensures Request(a) == Request(b)
  {
  }

  /** A first attempt that answers is the whole request: no retry, no log entry. */
  lemma FirstAttemptAnswered<R>(attempt: nat -> Attempt<R>)
    requires attempt(0).Answered?
    ensures Request(attempt) == Call(Ok(attempt(0).reply), [])
  {
  }

  /** `make_request` as written: a loop that stops at the first reply or
      after `RETRY` timeouts; it agrees with `Request`. */
  method MakeRequest<R>(attempt: nat -> Attempt<R>) returns (c: Call<R>)
    ensures FollowsAttempts(attempt, c)
    ensures c == Request(attempt)
  {
    var retryCounter: nat := 0;
    var apiResponse: Option<R> := None;
    var log: seq<LogEntry> := [];
    while apiResponse.None? && retryCounter < RETRY
      invariant retryCounter <= RETRY
      invariant |log| == retryCounter
      invariant forall k :: 0 <= k < retryCounter ==> attempt(k).TimedOut?
      invariant forall j :: 0 <= j < |log| ==> log[j] == TimeoutNote(attempt(j).detail)
      invariant apiResponse.Some? ==>
                  retryCounter < RETRY && attempt(retryCounter) == Answered(apiResponse.value)
      decreases RETRY - retryCounter, apiResponse.None?
    {
      match attempt(retryCounter)
      case Answered(reply) =>
        apiResponse := Some(reply);
      case Failed(detail) =>
        c := Call(Raised(RequestFailure(detail)), log);
        FollowsAttemptsUnique(attempt, c, Request(attempt));
        return;
      case TimedOut(detail) =>
        log := log + [TimeoutNote(detail)];
        retryCounter := retryCounter + 1;
    }
    if apiResponse.None? {
      c := Call(Raised(ReadTimeout(GAVE_UP)), log);
    } else {
      c := Call(Ok(apiResponse.value), log);
    }
    FollowsAttemptsUnique(attempt, c, Request(attempt));
  }
}
