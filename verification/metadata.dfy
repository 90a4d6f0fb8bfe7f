/** `fetch_uncommon_info`: one `groups.getById` request per uncommon group,
    assembling a name, an id and a member count from each reply. */
module Metadata {
  import opened Api
  import opened Retry
  import opened Chunking

  /** The first element of a `groups.getById` reply's `response` list. */
  datatype GroupRecord = GroupRecord(name: string, id: GroupId, membersCount: Option<int>)

  /** A member count, or the marker written when the reply leaves it out. */
  datatype MembersCount = Count(n: int) | Marker(text: string)

  const UNAVAILABLE: string := "Unavailable"

  /** One entry of the result list: `{"name", "gid", "members_count"}`. */
  datatype GroupInfo = GroupInfo(name: string, gid: GroupId, membersCount: MembersCount)

  /** The transport for `groups.getById`: `getById(g, k)` is the `k`-th
      attempt of the request about group `g`. */
  type GetByIdOracle = (GroupId, nat) -> Attempt<Envelope<seq<GroupRecord>>>

  /** The entry built from a record: the id is the record's own, and a
      missing member count becomes the `"Unavailable"` marker. */
  function InfoOf(rec: GroupRecord): (info: GroupInfo)
    ensures info.name == rec.name && info.gid == rec.id
    ensures rec.membersCount.Some? ==> info.membersCount == Count(rec.membersCount.value)
    ensures rec.membersCount.None? ==> info.membersCount == Marker(UNAVAILABLE)
  {
    GroupInfo(rec.name, rec.id,
              match rec.membersCount
              case Some(n) => Count(n)
              case None => Marker(UNAVAILABLE))
  }

  /** The retried request about group `g`. */
  function GetByIdCall(getById: GetByIdOracle, g: GroupId): Call<Envelope<seq<GroupRecord>>>
  {
    Request((k: nat) => getById(g, k))
  }

  /** A request whose first attempt answers yields that reply and no log entry. */
  lemma GetByIdCallAnswered(getById: GetByIdOracle, g: GroupId)
    requires getById(g, 0).Answered?
    ensures GetByIdCall(getById, g) == Call(Ok(getById(g, 0).reply), [])
  {
  }

  /** One iteration of the loop over groups: `Some(info)` for a reply with
      a `response`, `None` for an error reply that was logged and skipped. */
  function FetchGroup(getById: GetByIdOracle, g: GroupId): (r: Call<Option<GroupInfo>>)
    ensures var c := GetByIdCall(getById, g);
            r.result.Ok? && r.result.value.Some? <==>
              c.result.Ok? && c.result.value.response.Some? && |c.result.value.response.value| > 0
    ensures var c := GetByIdCall(getById, g);
            r.result.Ok? && r.result.value.Some? ==>
              r.result.value.value == InfoOf(c.result.value.response.value[0])
    ensures var c := GetByIdCall(getById, g);
            r.result == Ok(None) <==>
              && c.result.Ok? && c.result.value.response.None?
              && (c.result.value.error.Some? || c.result.value.executeErrors.Some?)
    ensures var c := GetByIdCall(getById, g);
            |r.log| == |c.log| + (if r.result == Ok(None) then 1 else 0) && r.log[..|c.log|] == c.log
    ensures var c := GetByIdCall(getById, g);
            r.result == Ok(None) ==> r.log == c.log + [NewApiError(c.result.value).body.value]
    ensures var c := GetByIdCall(getById, g);
            c.result.Raised? ==> r == Call(Raised(c.result.exc), c.log)
    ensures var c := GetByIdCall(getById, g);
            c.result.Ok? && c.result.value.response.Some? && |c.result.value.response.value| == 0 ==>
              r.result == Raised(IndexError)
    ensures var c := GetByIdCall(getById, g);
            c.result.Ok? && c.result.value.response.None?
            && c.result.value.error.None? && c.result.value.executeErrors.None? ==>
              r.result == Raised(AttributeError)
  {
    var c := GetByIdCall(getById, g);
    match c.result
    case Raised(e) => Call(Raised(e), c.log)
    case Ok(reply) =>
      if reply.response.None? then
        ReportedIffErrorKey(reply);
        match Report(NewApiError(reply))
        case Raised(e) => Call(Raised(e), c.log)
        case Ok(entry) => Call(Ok(None), c.log + [entry])
      else if |reply.response.value| == 0 then Call(Raised(IndexError), c.log)
      else Call(Ok(Some(InfoOf(reply.response.value[0]))), c.log)
  }

  /** The entry the reply about `g` describes: built from the first record
      of a non-empty `response`, and nothing for any other reply. */
  function EntryOf(getById: GetByIdOracle, g: GroupId): Option<GroupInfo>
  {
    var c := GetByIdCall(getById, g);
    if c.result.Ok? && c.result.value.response.Some? && |c.result.value.response.value| > 0
    then Some(InfoOf(c.result.value.response.value[0]))
    else None
  }

  /** Whatever one iteration keeps, when it does not raise, is the entry
      its reply describes. */
  lemma FetchGroupEntry(getById: GetByIdOracle, g: GroupId)
    ensures FetchGroup(getById, g).result.Ok? ==> FetchGroup(getById, g).result.value == EntryOf(getById, g)
  {
  }

  /** The entry of every group of `order`, position by position. */
  function Entries(getById: GetByIdOracle, order: seq<GroupId>): (es: seq<Option<GroupInfo>>)
    ensures |es| == |order|
    ensures forall i :: 0 <= i < |order| ==> es[i] == EntryOf(getById, order[i])
  {
    if |order| == 0 then [] else [EntryOf(getById, order[0])] + Entries(getById, order[1..])
  }

  /** The present values of `xs`, in order. */
  function Somes<T>(xs: seq<Option<T>>): (r: seq<T>)
    ensures |r| <= |xs|
  {
    if |xs| == 0 then []
    else (if xs[0].Some? then [xs[0].value] else []) + Somes(xs[1..])
  }

  /** A value is kept exactly when it is present at some position. */
  lemma {:induction false} SomesMembers<T>(xs: seq<Option<T>>, x: T)
    ensures x in Somes(xs) <==> exists i :: 0 <= i < |xs| && xs[i] == Some(x)
    decreases |xs|
  {
    if |xs| > 0 {
      SomesMembers(xs[1..], x);
      if x in Somes(xs[1..]) {
        var i :| 0 <= i < |xs[1..]| && xs[1..][i] == Some(x);
        assert xs[i + 1] == Some(x);
      }
      if exists i :: 0 <= i < |xs| && xs[i] == Some(x) {
        var i :| 0 <= i < |xs| && xs[i] == Some(x);
        if i > 0 {
          assert xs[1..][i - 1] == Some(x);
        }
      }
    }
  }

  /** The body of the loop in `fetch_uncommon_info`, as a value. The loop
      below is stated for any such body. */
  type GroupFetch = GroupId -> Call<Option<GroupInfo>>

  function FetchOf(getById: GetByIdOracle): GroupFetch
  {
    g => FetchGroup(getById, g)
  }

  /** What the iteration about `g` keeps, `None` when it raises. */
  function Outcome(c: Call<Option<GroupInfo>>): Option<GroupInfo>
  {
    if c.result.Ok? then c.result.value else None
  }

  function Outcomes(fetch: GroupFetch, order: seq<GroupId>): (os: seq<Option<GroupInfo>>)
    ensures |os| == |order|
  {
    if |order| == 0 then [] else [Outcome(fetch(order[0]))] + Outcomes(fetch, order[1..])
  }

  /** The log entries of every iteration, in order. */
  function FetchLogs(fetch: GroupFetch, order: seq<GroupId>): seq<LogEntry>
  {
    if |order| == 0 then [] else fetch(order[0]).log + FetchLogs(fetch, order[1..])
  }

  /** The loop over groups: it raises at the first iteration that raises,
      and otherwise collects what every iteration kept, in order. */
  function FetchLoop(fetch: GroupFetch, order: seq<GroupId>): (r: Call<seq<GroupInfo>>)
    ensures r.result.Raised? <==> exists i :: 0 <= i < |order| && fetch(order[i]).result.Raised?
    ensures r.result.Ok? ==> r.result.value == Somes(Outcomes(fetch, order))
    ensures r.result.Ok? ==> r.log == FetchLogs(fetch, order)
    ensures r.result.Raised? ==>
              exists i :: && FetchRaisesFirst(fetch, order, i)
                          && r.result.exc == fetch(order[i]).result.exc
                          && r.log == FetchLogs(fetch, order[..i]) + fetch(order[i]).log
    decreases |order|
  {
    if |order| == 0 then Call(Ok([]), [])
    else
      var c := fetch(order[0]);
      match c.result
      case Raised(e) =>
        assert FetchRaisesFirst(fetch, order, 0) && order[..0] == [];
        Call(Raised(e), c.log)
      case Ok(kept) =>
        var rest := FetchLoop(fetch, order[1..]);
        assert Outcomes(fetch, order)[1..] == Outcomes(fetch, order[1..]);
        assert forall i :: 1 <= i < |order| ==> order[i] == order[1..][i - 1];
        if rest.result.Raised? then
          FetchRaisedLater(fetch, order, c, rest);
          Call(Raised(rest.result.exc), c.log + rest.log)
        else
          Call(Ok((if kept.Some? then [kept.value] else []) + rest.result.value), c.log + rest.log)
  }

  /** The iteration about `order[i]` raises, and every earlier one did not. */
  ghost predicate FetchRaisesFirst(fetch: GroupFetch, order: seq<GroupId>, i: int)
  {
    && 0 <= i < |order|
    && fetch(order[i]).result.Raised?
    && forall k :: 0 <= k < i ==> fetch(order[k]).result.Ok?
  }

  /** An exception from a later group is the first one of the whole loop
      when the first group's iteration did not raise. */
  lemma FetchRaisedLater(fetch: GroupFetch, order: seq<GroupId>, c: Call<Option<GroupInfo>>, rest: Call<seq<GroupInfo>>)
    requires |order| > 0 && c == fetch(order[0]) && c.result.Ok?
    requires rest.result.Raised?
    requires exists i :: && FetchRaisesFirst(fetch, order[1..], i)
                         && rest.result.exc == fetch(order[1..][i]).result.exc
                         && rest.log == FetchLogs(fetch, order[1..][..i]) + fetch(order[1..][i]).log
    ensures exists i :: && FetchRaisesFirst(fetch, order, i)
                        && rest.result.exc == fetch(order[i]).result.exc
                        && c.log + rest.log == FetchLogs(fetch, order[..i]) + fetch(order[i]).log
  {
    var tail := order[1..];
    var i :| && FetchRaisesFirst(fetch, tail, i)
             && rest.result.exc == fetch(tail[i]).result.exc
             && rest.log == FetchLogs(fetch, tail[..i]) + fetch(tail[i]).log;
    assert order[..i + 1][0] == order[0];
    assert order[..i + 1][1..] == tail[..i];
    assert FetchLogs(fetch, order[..i + 1]) == c.log + FetchLogs(fetch, tail[..i]);
    assert order[i + 1] == tail[i];
    forall k | 0 <= k < i + 1
      ensures fetch(order[k]).result.Ok?
    {
      if k > 0 {
        assert order[k] == tail[k - 1];
      }
    }
    assert FetchRaisesFirst(fetch, order, i + 1);
    ConcatAssoc(c.log, FetchLogs(fetch, tail[..i]), fetch(tail[i]).log);
  }


  /** With no iteration raising, what the real iterations keep is the entry
      every reply describes. */
  lemma {:induction false} OutcomesAreEntries(getById: GetByIdOracle, order: seq<GroupId>)
    requires forall i :: 0 <= i < |order| ==> FetchGroup(getById, order[i]).result.Ok?
    ensures Outcomes(FetchOf(getById), order) == Entries(getById, order)
    decreases |order|
  {
    if |order| > 0 {
      FetchGroupEntry(getById, order[0]);
      assert FetchOf(getById)(order[0]) == FetchGroup(getById, order[0]);
      assert forall i :: 0 <= i < |order[1..]| ==> order[1..][i] == order[i + 1];
      OutcomesAreEntries(getById, order[1..]);
    }
  }

  /** `fetch_uncommon_info` over the groups in the order `order` in which it
      iterates over the set it is given. Without an exception the result is
      the entry of every group whose reply described one, in that order,
      and nothing for the groups that were skipped. */
  function FetchUncommonInfo(getById: GetByIdOracle, order: seq<GroupId>): (r: Call<seq<GroupInfo>>)
    ensures r.result.Raised? <==> exists i :: 0 <= i < |order| && FetchGroup(getById, order[i]).result.Raised?
    ensures r.result.Ok? ==> r.result.value == Somes(Entries(getById, order))
    ensures r.result.Ok? ==> |r.result.value| <= |order|
    ensures r.result.Ok? ==> r.log == FetchLogs(FetchOf(getById), order)
    ensures r.result.Raised? ==> exists i :: FetchAbortedAt(getById, order, r, i)
  {
    var fetch := FetchOf(getById);
    var r := FetchLoop(fetch, order);
    assert forall i :: 0 <= i < |order| ==> fetch(order[i]) == FetchGroup(getById, order[i]);
    if r.result.Ok? then OutcomesAreEntries(getById, order); r
    else FetchLoopAborted(getById, order); r
  }

  /** `r` is what `fetch_uncommon_info` ends with when the iteration about
      `order[i]` is the first to raise: every earlier iteration went
      through, `r` carries that iteration's exception, and `r`'s log holds
      the entries of every request up to and including it. */
  ghost predicate FetchAbortedAt(getById: GetByIdOracle, order: seq<GroupId>, r: Call<seq<GroupInfo>>, i: int)
  {
    && 0 <= i < |order|
    && (forall k :: 0 <= k < i ==> FetchGroup(getById, order[k]).result.Ok?)
    && FetchGroup(getById, order[i]).result.Raised?
    && r.result == Raised(FetchGroup(getById, order[i]).result.exc)
    && r.log == FetchLogs(FetchOf(getById), order[..i]) + FetchGroup(getById, order[i]).log
  }

  lemma FetchLoopAborted(getById: GetByIdOracle, order: seq<GroupId>)
    ensures var r := FetchLoop(FetchOf(getById), order);
            r.result.Raised? ==> exists i :: FetchAbortedAt(getById, order, r, i)
  {
    var fetch := FetchOf(getById);
    var r := FetchLoop(fetch, order);
    if r.result.Raised? {
      var i :| && FetchRaisesFirst(fetch, order, i)
               && r.result.exc == fetch(order[i]).result.exc
               && r.log == FetchLogs(fetch, order[..i]) + fetch(order[i]).log;
      assert forall k :: 0 <= k < |order| ==> fetch(order[k]) == FetchGroup(getById, order[k]);
      assert FetchAbortedAt(getById, order, r, i);
    }
  }

  /** Without an exception, an entry is returned exactly when the reply
      about some group of `order` describes it. */
  lemma FetchComplete(getById: GetByIdOracle, order: seq<GroupId>, info: GroupInfo)
    requires FetchUncommonInfo(getById, order).result.Ok?
    ensures info in FetchUncommonInfo(getById, order).result.value <==>
              exists i :: 0 <= i < |order| && EntryOf(getById, order[i]) == Some(info)
  {
    SomesMembers(Entries(getById, order), info);
  }
}
