/** `find_common`: for every group of the user, one `groups.isMember`
    request per chunk of the friend list; a group is common when some reply
    reports a friend who is a member. Then the uncommon groups: the user's
    groups that are not common. */
module Common {
  import opened Api
  import opened Retry
  import opened Chunking

  /** One entry of a `groups.isMember` reply. */
  datatype MemberStatus = MemberStatus(userId: UserId, member: bool)

  /** The transport for `groups.isMember`: `isMember(g, chunk, k)` is the
      `k`-th attempt of the request about group `g` and the friends `chunk`. */
  type MembershipOracle = (GroupId, seq<UserId>, nat) -> Attempt<Envelope<seq<MemberStatus>>>

  predicate HasMember(flags: seq<MemberStatus>)
  {
    exists i :: 0 <= i < |flags| && flags[i].member
  }

  /** The loop over the entries of a reply, left at the first member. */
  function AnyMember(flags: seq<MemberStatus>): (found: bool)
    ensures found <==> HasMember(flags)
  {
    if |flags| == 0 then false
    else if flags[0].member then true
    else AnyMember(flags[1..])
  }

  /** The retried request about group `g` and the friends `chunk`. */
  function IsMemberCall(isMember: MembershipOracle, g: GroupId, chunk: seq<UserId>)
    : Call<Envelope<seq<MemberStatus>>>
  {
    Request((k: nat) => isMember(g, chunk, k))
  }

  /** A request whose first attempt answers yields that reply and no log entry. */
  lemma IsMemberCallAnswered(isMember: MembershipOracle, g: GroupId, chunk: seq<UserId>)
    requires isMember(g, chunk, 0).Answered?
    ensures IsMemberCall(isMember, g, chunk) == Call(Ok(isMember(g, chunk, 0).reply), [])
  {
  }

  /** The request about `g` and `chunk` got a reply whose `response` reports a member. */
  ghost predicate Confirms(isMember: MembershipOracle, g: GroupId, chunk: seq<UserId>)
  {
    var c := IsMemberCall(isMember, g, chunk);
    c.result.Ok? && c.result.value.response.Some? && HasMember(c.result.value.response.value)
  }

  /** The request about `g` and `chunk` got an error reply, which is logged and skipped. */
  ghost predicate Rejected(isMember: MembershipOracle, g: GroupId, chunk: seq<UserId>)
  {
    var c := IsMemberCall(isMember, g, chunk);
    && c.result.Ok?
    && c.result.value.response.None?
    && (c.result.value.error.Some? || c.result.value.executeErrors.Some?)
  }

  /** The request about `g` and `chunk` ends the whole computation: the
      transport raised, or the reply has none of `response`, `error` and
      `execute_errors`. */
  ghost predicate Aborts(isMember: MembershipOracle, g: GroupId, chunk: seq<UserId>)
  {
    var c := IsMemberCall(isMember, g, chunk);
    || c.result.Raised?
    || (&& c.result.value.response.None?
        && c.result.value.error.None?
        && c.result.value.executeErrors.None?)
  }

  /** One iteration of the loop over chunks: request, then either inspect
      the entries, or log the error reply and go on. */
  function CheckChunk(isMember: MembershipOracle, g: GroupId, chunk: seq<UserId>): (r: Call<bool>)
    ensures r.result == Ok(true) <==> Confirms(isMember, g, chunk)
    ensures r.result.Raised? <==> Aborts(isMember, g, chunk)
    ensures |r.log| == |IsMemberCall(isMember, g, chunk).log| + (if Rejected(isMember, g, chunk) then 1 else 0)
    ensures r.log[..|IsMemberCall(isMember, g, chunk).log|] == IsMemberCall(isMember, g, chunk).log
    ensures var c := IsMemberCall(isMember, g, chunk);
            c.result.Raised? ==> r == Call(Raised(c.result.exc), c.log)
    ensures var c := IsMemberCall(isMember, g, chunk);
            Aborts(isMember, g, chunk) && c.result.Ok? ==> r == Call(Raised(AttributeError), c.log)
    ensures var c := IsMemberCall(isMember, g, chunk);
            Rejected(isMember, g, chunk) ==> r.log == c.log + [NewApiError(c.result.value).body.value]
  {
    var c := IsMemberCall(isMember, g, chunk);
    match c.result
    case Raised(e) => Call(Raised(e), c.log)
    case Ok(reply) =>
      if reply.response.Some? then Call(Ok(AnyMember(reply.response.value)), c.log)
      else
        ReportedIffErrorKey(reply);
        match Report(NewApiError(reply))
        case Raised(e) => Call(Raised(e), c.log)
        case Ok(entry) => Call(Ok(false), c.log + [entry])
  }

  /** The body of the loop over chunks, as a value: `check(g, chunk)` is
      the iteration about group `g` and the friends `chunk`. The loops
      below are stated for any such body. */
  type ChunkCheck = (GroupId, seq<UserId>) -> Call<bool>

  /** The body of the loop over chunks in `find_common`. */
  function CheckOf(isMember: MembershipOracle): ChunkCheck
  {
    (g, chunk) => CheckChunk(isMember, g, chunk)
  }

  /** Some iteration about `g` and one of `chunks` raises. */
  ghost predicate GroupAborts(check: ChunkCheck, g: GroupId, chunks: seq<seq<UserId>>)
  {
    exists j :: 0 <= j < |chunks| && check(g, chunks[j]).result.Raised?
  }

  /** The iteration about `g` and `chunks[j]` raises, and every earlier one did not. */
  ghost predicate ChunkRaisesFirst(check: ChunkCheck, g: GroupId, chunks: seq<seq<UserId>>, j: int)
  {
    && 0 <= j < |chunks|
    && check(g, chunks[j]).result.Raised?
    && forall k :: 0 <= k < j ==> check(g, chunks[k]).result.Ok?
  }

  /** Some iteration about `g` and one of `chunks` finds a member. */
  ghost predicate GroupConfirms(check: ChunkCheck, g: GroupId, chunks: seq<seq<UserId>>)
  {
    exists j :: 0 <= j < |chunks| && check(g, chunks[j]).result == Ok(true)
  }

  /** The log entries of every chunk's iteration about `g`, in chunk order. */
  function ChunkLogs(check: ChunkCheck, g: GroupId, chunks: seq<seq<UserId>>): seq<LogEntry>
  {
    if |chunks| == 0 then [] else check(g, chunks[0]).log + ChunkLogs(check, g, chunks[1..])
  }

  /** The loop over chunks for one group. A chunk that reports a member
      does not end it: every chunk is requested. */
  function CheckGroup(check: ChunkCheck, g: GroupId, chunks: seq<seq<UserId>>): (r: Call<bool>)
    ensures r.result.Raised? <==> GroupAborts(check, g, chunks)
    ensures r.result.Ok? ==> (r.result.value <==> GroupConfirms(check, g, chunks))
    ensures r.result.Ok? ==> r.log == ChunkLogs(check, g, chunks)
    ensures r.result.Raised? ==>
              exists j :: && ChunkRaisesFirst(check, g, chunks, j)
                          && r.result == check(g, chunks[j]).result
                          && r.log == ChunkLogs(check, g, chunks[..j]) + check(g, chunks[j]).log
    decreases |chunks|
  {
    if |chunks| == 0 then Call(Ok(false), [])
    else
      var c := check(g, chunks[0]);
      match c.result
      case Raised(e) =>
        assert ChunkRaisesFirst(check, g, chunks, 0) && chunks[..0] == [];
        Call(Raised(e), c.log)
      case Ok(found) =>
        var rest := CheckGroup(check, g, chunks[1..]);
        if rest.result.Raised? then
          RaisedLater(check, g, chunks, c, rest);
          Call(rest.result, c.log + rest.log)
        else
          Call(Ok(found || rest.result.value), c.log + rest.log)
  }

  /** An exception from a later chunk is the first one of the whole loop
      when the first chunk's iteration did not raise. */
  lemma RaisedLater(check: ChunkCheck, g: GroupId, chunks: seq<seq<UserId>>, c: Call<bool>, rest: Call<bool>)
    requires |chunks| > 0 && c == check(g, chunks[0]) && c.result.Ok?
    requires exists j :: && ChunkRaisesFirst(check, g, chunks[1..], j)
                         && rest.result == check(g, chunks[1..][j]).result
                         && rest.log == ChunkLogs(check, g, chunks[1..][..j]) + check(g, chunks[1..][j]).log
    ensures exists j :: && ChunkRaisesFirst(check, g, chunks, j)
                        && rest.result == check(g, chunks[j]).result
                        && c.log + rest.log == ChunkLogs(check, g, chunks[..j]) + check(g, chunks[j]).log
  {
    var j :| && ChunkRaisesFirst(check, g, chunks[1..], j)
             && rest.result == check(g, chunks[1..][j]).result
             && rest.log == ChunkLogs(check, g, chunks[1..][..j]) + check(g, chunks[1..][j]).log;
    ChunkLogsStep(check, g, chunks, j + 1);
    assert chunks[..j + 1][1..] == chunks[1..][..j];
    assert ChunkRaisesFirst(check, g, chunks, j + 1);
  }

  /** The logs of the first `n` iterations: the first one's, then the rest's. */
  lemma ChunkLogsStep(check: ChunkCheck, g: GroupId, chunks: seq<seq<UserId>>, n: nat)
    requires 0 < n <= |chunks|
    ensures ChunkLogs(check, g, chunks[..n]) == check(g, chunks[0]).log + ChunkLogs(check, g, chunks[..n][1..])
  {
    assert chunks[..n][0] == chunks[0];
  }

  /** The log entries of every iteration about every group, in request order. */
  function GroupLogs(check: ChunkCheck, groups: seq<GroupId>, chunks: seq<seq<UserId>>): seq<LogEntry>
  {
    if |groups| == 0 then [] else ChunkLogs(check, groups[0], chunks) + GroupLogs(check, groups[1..], chunks)
  }

  /** The loop over groups, each checked against the same chunks. */
  function CommonOf(check: ChunkCheck, groups: seq<GroupId>, chunks: seq<seq<UserId>>): (r: Call<set<GroupId>>)
    ensures r.result.Ok? ==> r.result.value <= set g | g in groups
    decreases |groups|
  {
    if |groups| == 0 then Call(Ok({}), [])
    else
      var c := CheckGroup(check, groups[0], chunks);
      match c.result
      case Raised(e) => Call(Raised(e), c.log)
      case Ok(common) =>
        var rest := CommonOf(check, groups[1..], chunks);
        match rest.result
        case Raised(e) => Call(Raised(e), c.log + rest.log)
        case Ok(commonLater) =>
          Call(Ok(if common then {groups[0]} + commonLater else commonLater), c.log + rest.log)
  }

  /** The loop over groups raises exactly when some iteration about some
      group raises. */
  lemma {:induction false} CommonOfRaises(check: ChunkCheck, groups: seq<GroupId>, chunks: seq<seq<UserId>>)
    ensures CommonOf(check, groups, chunks).result.Raised? <==>
              exists g :: g in groups && GroupAborts(check, g, chunks)
    decreases |groups|
  {
    if |groups| > 0 {
      CommonOfRaises(check, groups[1..], chunks);
      assert forall g :: g in groups <==> g == groups[0] || g in groups[1..];
    }
  }

  /** The iteration about `groups[i]` raises, and every earlier one did not. */
  ghost predicate GroupRaisesFirst(check: ChunkCheck, groups: seq<GroupId>, chunks: seq<seq<UserId>>, i: int)
  {
    && 0 <= i < |groups|
    && CheckGroup(check, groups[i], chunks).result.Raised?
    && forall k :: 0 <= k < i ==> CheckGroup(check, groups[k], chunks).result.Ok?
  }

  /** When the loop over groups raises, it raises the exception of the first
      group whose iteration raised, and the log holds the entries of every
      earlier group and those of that group up to its exception. */
  lemma {:induction false} CommonOfRaisedAt(check: ChunkCheck, groups: seq<GroupId>, chunks: seq<seq<UserId>>)
    ensures var r := CommonOf(check, groups, chunks);
            r.result.Raised? ==>
              exists i :: && GroupRaisesFirst(check, groups, chunks, i)
                          && r.result.exc == CheckGroup(check, groups[i], chunks).result.exc
                          && r.log == GroupLogs(check, groups[..i], chunks) + CheckGroup(check, groups[i], chunks).log
    decreases |groups|
  {
    if |groups| > 0 {
      var c := CheckGroup(check, groups[0], chunks);
      if c.result.Raised? {
        assert GroupRaisesFirst(check, groups, chunks, 0) && groups[..0] == [];
      } else {
        var tail := groups[1..];
        var rest := CommonOf(check, tail, chunks);
        CommonOfRaisedAt(check, tail, chunks);
        if rest.result.Raised? {
          GroupRaisedLater(check, groups, chunks, c, rest);
        }
      }
    }
  }

  lemma GroupRaisedLater(check: ChunkCheck, groups: seq<GroupId>, chunks: seq<seq<UserId>>,
                         c: Call<bool>, rest: Call<set<GroupId>>)
    requires |groups| > 0 && c == CheckGroup(check, groups[0], chunks) && c.result.Ok?
    requires rest.result.Raised?
    requires exists i :: && GroupRaisesFirst(check, groups[1..], chunks, i)
                         && rest.result.exc == CheckGroup(check, groups[1..][i], chunks).result.exc
                         && rest.log == GroupLogs(check, groups[1..][..i], chunks)
                                        + CheckGroup(check, groups[1..][i], chunks).log
    ensures exists i :: && GroupRaisesFirst(check, groups, chunks, i)
                        && rest.result.exc == CheckGroup(check, groups[i], chunks).result.exc
                        && c.log + rest.log == GroupLogs(check, groups[..i], chunks) + CheckGroup(check, groups[i], chunks).log
  {
    var tail := groups[1..];
    var i :| && GroupRaisesFirst(check, tail, chunks, i)
             && rest.result.exc == CheckGroup(check, tail[i], chunks).result.exc
             && rest.log == GroupLogs(check, tail[..i], chunks) + CheckGroup(check, tail[i], chunks).log;
    RaisesFirstShift(check, groups, chunks, i);
    GroupLogsShift(check, groups, chunks, i);
    assert groups[i + 1] == tail[i];
    assert c.log == ChunkLogs(check, groups[0], chunks);
    var before := GroupLogs(check, tail[..i], chunks);
    var last := CheckGroup(check, tail[i], chunks).log;
    ConcatAssoc(c.log, before, last);
    assert && GroupRaisesFirst(check, groups, chunks, i + 1)
           && rest.result.exc == CheckGroup(check, groups[i + 1], chunks).result.exc
           && c.log + rest.log == GroupLogs(check, groups[..i + 1], chunks) + CheckGroup(check, groups[i + 1], chunks).log;
  }


  lemma RaisesFirstShift(check: ChunkCheck, groups: seq<GroupId>, chunks: seq<seq<UserId>>, i: int)
    requires |groups| > 0 && CheckGroup(check, groups[0], chunks).result.Ok?
    requires GroupRaisesFirst(check, groups[1..], chunks, i)
    ensures GroupRaisesFirst(check, groups, chunks, i + 1)
  {
    forall k | 0 <= k < i + 1
      ensures CheckGroup(check, groups[k], chunks).result.Ok?
    {
      if k > 0 {
        assert groups[k] == groups[1..][k - 1];
      }
    }
    assert groups[i + 1] == groups[1..][i];
  }

  lemma GroupLogsShift(check: ChunkCheck, groups: seq<GroupId>, chunks: seq<seq<UserId>>, i: nat)
    requires i + 1 < |groups|
    ensures GroupLogs(check, groups[..i + 1], chunks)
         == ChunkLogs(check, groups[0], chunks) + GroupLogs(check, groups[1..][..i], chunks)
  {
    GroupLogsStep(check, groups, chunks, i + 1);
    assert groups[..i + 1][1..] == groups[1..][..i];
  }

  /** The logs of the first `n` groups: the first one's, then the rest's. */
  lemma GroupLogsStep(check: ChunkCheck, groups: seq<GroupId>, chunks: seq<seq<UserId>>, n: nat)
    requires 0 < n <= |groups|
    ensures GroupLogs(check, groups[..n], chunks) == ChunkLogs(check, groups[0], chunks) + GroupLogs(check, groups[..n][1..], chunks)
  {
    assert groups[..n][0] == groups[0];
  }

  /** Without an exception, a group is common exactly when it is one of the
      user's groups and some iteration about it finds a member. */
  lemma {:induction false} CommonOfMembers(check: ChunkCheck, groups: seq<GroupId>, chunks: seq<seq<UserId>>)
    ensures var r := CommonOf(check, groups, chunks);
            r.result.Ok? ==> forall g :: g in r.result.value <==> g in groups && GroupConfirms(check, g, chunks)
    decreases |groups|
  {
    if |groups| > 0 {
      CommonOfMembers(check, groups[1..], chunks);
      assert forall g :: g in groups <==> g == groups[0] || g in groups[1..];
    }
  }

  /** Without an exception, the log holds the entries of every iteration
      about every group: no request is skipped. */
  lemma {:induction false} CommonOfLog(check: ChunkCheck, groups: seq<GroupId>, chunks: seq<seq<UserId>>)
    ensures var r := CommonOf(check, groups, chunks);
            r.result.Ok? ==> r.log == GroupLogs(check, groups, chunks)
    decreases |groups|
  {
    if |groups| > 0 {
      CommonOfLog(check, groups[1..], chunks);
    }
  }

  /** What the loop-level predicates mean for the body of `find_common`. */
  lemma CheckOfMeaning(isMember: MembershipOracle, g: GroupId, chunks: seq<seq<UserId>>)
    ensures GroupConfirms(CheckOf(isMember), g, chunks) <==>
              exists chunk :: chunk in chunks && Confirms(isMember, g, chunk)
    ensures GroupAborts(CheckOf(isMember), g, chunks) <==>
              exists chunk :: chunk in chunks && Aborts(isMember, g, chunk)
  {
    forall chunk | chunk in chunks
      ensures CheckOf(isMember)(g, chunk) == CheckChunk(isMember, g, chunk)
    {
    }
  }

  /** `find_common(user_groups, user_friends, amount)`. */
  function FindCommon(groups: seq<GroupId>, friends: seq<UserId>, amount: int, isMember: MembershipOracle)
    : (r: Call<set<GroupId>>)
    requires amount != 0
    ensures r.result.Ok? ==> forall g :: g in r.result.value <==>
              g in groups && exists chunk :: chunk in Chunks(friends, amount) && Confirms(isMember, g, chunk)
    ensures r.result.Raised? <==>
              exists g, chunk :: g in groups && chunk in Chunks(friends, amount) && Aborts(isMember, g, chunk)
    ensures r.result.Ok? ==> r.log == GroupLogs(CheckOf(isMember), groups, Chunks(friends, amount))
    ensures var chunks := Chunks(friends, amount);
            r.result.Raised? ==>
              exists i :: && GroupRaisesFirst(CheckOf(isMember), groups, chunks, i)
                          && r.result.exc == CheckGroup(CheckOf(isMember), groups[i], chunks).result.exc
                          && r.log == GroupLogs(CheckOf(isMember), groups[..i], chunks)
                                      + CheckGroup(CheckOf(isMember), groups[i], chunks).log
  {
    var chunks := Chunks(friends, amount);
    var check := CheckOf(isMember);
    CommonOfRaises(check, groups, chunks);
    CommonOfRaisedAt(check, groups, chunks);
    CommonOfMembers(check, groups, chunks);
    CommonOfLog(check, groups, chunks);
    forall g { CheckOfMeaning(isMember, g, chunks); }
    CommonOf(check, groups, chunks)
  }

  /** When the loop over groups raises, the exception is that of the first
      chunk of the first group whose iteration raised, and the log holds
      the entries of every iteration before it and of that one. */
  lemma CommonOfRaisedAtChunk(check: ChunkCheck, groups: seq<GroupId>, chunks: seq<seq<UserId>>)
    ensures var r := CommonOf(check, groups, chunks);
            r.result.Raised? ==>
              exists i, j :: && GroupRaisesFirst(check, groups, chunks, i)
                             && ChunkRaisesFirst(check, groups[i], chunks, j)
                             && r.result.exc == check(groups[i], chunks[j]).result.exc
                             && r.log == GroupLogs(check, groups[..i], chunks)
                                         + (ChunkLogs(check, groups[i], chunks[..j]) + check(groups[i], chunks[j]).log)
  {
    var r := CommonOf(check, groups, chunks);
    CommonOfRaisedAt(check, groups, chunks);
    if r.result.Raised? {
      var i :| && GroupRaisesFirst(check, groups, chunks, i)
               && r.result.exc == CheckGroup(check, groups[i], chunks).result.exc
               && r.log == GroupLogs(check, groups[..i], chunks) + CheckGroup(check, groups[i], chunks).log;
      var j :| && ChunkRaisesFirst(check, groups[i], chunks, j)
               && CheckGroup(check, groups[i], chunks).result == check(groups[i], chunks[j]).result
               && CheckGroup(check, groups[i], chunks).log
                  == ChunkLogs(check, groups[i], chunks[..j]) + check(groups[i], chunks[j]).log;
    }
  }

  /** `r` is what `find_common` ends with when the request about
      `groups[i]` and `chunks[j]` is the first to abort: every earlier
      group and every earlier chunk of `groups[i]` went through, `r`
      carries that request's exception, and `r`'s log holds the entries of
      every request up to and including it. */
  ghost predicate AbortedAt(isMember: MembershipOracle, groups: seq<GroupId>, chunks: seq<seq<UserId>>,
                            r: Call<set<GroupId>>, i: int, j: int)
  {
    && GroupRaisesFirst(CheckOf(isMember), groups, chunks, i)
    && ChunkRaisesFirst(CheckOf(isMember), groups[i], chunks, j)
    && Aborts(isMember, groups[i], chunks[j])
    && r.result == Raised(CheckChunk(isMember, groups[i], chunks[j]).result.exc)
    && r.log == GroupLogs(CheckOf(isMember), groups[..i], chunks)
                + (ChunkLogs(CheckOf(isMember), groups[i], chunks[..j]) + CheckChunk(isMember, groups[i], chunks[j]).log)
  }

  /** When `find_common` raises, it is at the first request that aborts. */
  lemma FindCommonRaisedAt(groups: seq<GroupId>, friends: seq<UserId>, amount: int, isMember: MembershipOracle)
    requires amount != 0
    ensures var r := FindCommon(groups, friends, amount, isMember);
            r.result.Raised? ==> exists i, j :: AbortedAt(isMember, groups, Chunks(friends, amount), r, i, j)
  {
    var chunks := Chunks(friends, amount);
    var check := CheckOf(isMember);
    var r := CommonOf(check, groups, chunks);
    assert FindCommon(groups, friends, amount, isMember) == r;
    CommonOfRaisedAtChunk(check, groups, chunks);
    if r.result.Raised? {
      var i, j :| && GroupRaisesFirst(check, groups, chunks, i)
                  && ChunkRaisesFirst(check, groups[i], chunks, j)
                  && r.result.exc == check(groups[i], chunks[j]).result.exc
                  && r.log == GroupLogs(check, groups[..i], chunks)
                              + (ChunkLogs(check, groups[i], chunks[..j]) + check(groups[i], chunks[j]).log);
      var cc := CheckChunk(isMember, groups[i], chunks[j]);
      assert check(groups[i], chunks[j]) == cc;
      assert Aborts(isMember, groups[i], chunks[j]);
      assert AbortedAt(isMember, groups, chunks, r, i, j);
    }
  }

  function ToSet(groups: seq<GroupId>): (s: set<GroupId>)
    ensures forall g :: g in s <==> g in groups
  {
    set g | g in groups
  }

  /** `set(user_groups) - common_groups`: given common groups that are
      among the user's groups, the uncommon and the common groups partition
      them. */
  function Uncommon(groups: seq<GroupId>, common: set<GroupId>): (u: set<GroupId>)
    ensures u !! common
    ensures u <= ToSet(groups)
    ensures common <= ToSet(groups) ==> u + common == ToSet(groups)
  {
    ToSet(groups) - common
  }

  /** A group is uncommon exactly when it is one of the user's groups and
      no reply about it reported a member. */
  lemma UncommonIffNoMember(groups: seq<GroupId>, friends: seq<UserId>, amount: int,
                            isMember: MembershipOracle, common: set<GroupId>)
    requires amount != 0
    requires FindCommon(groups, friends, amount, isMember).result == Ok(common)
    ensures forall g :: g in Uncommon(groups, common) <==>
              g in groups && forall chunk :: chunk in Chunks(friends, amount) ==> !Confirms(isMember, g, chunk)
    ensures Uncommon(groups, common) + common == ToSet(groups)
  {
  }

  /** A group every request about which got an error reply is never common:
      the missing evidence counts as no member. */
  lemma RejectedGroupIsUncommon(groups: seq<GroupId>, friends: seq<UserId>, amount: int,
                                isMember: MembershipOracle, g: GroupId)
    requires amount != 0
    requires FindCommon(groups, friends, amount, isMember).result.Ok?
    requires g in groups
    requires forall chunk :: chunk in Chunks(friends, amount) ==> Rejected(isMember, g, chunk)
    ensures g !in FindCommon(groups, friends, amount, isMember).result.value
    ensures g in Uncommon(groups, FindCommon(groups, friends, amount, isMember).result.value)
  {
  }
}
