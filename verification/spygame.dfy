/** The core of `main`: the chunk size, the common groups, their difference
    with the user's groups, and the metadata of the uncommon ones. */
module SpyGame {
  import opened Api
  import opened Retry
  import opened Chunking
  import opened Common
  import opened Metadata

  const DEFAULT_CHUNK_SIZE: int := 50

  /** `if not chunk_size: chunk_size = 50`: an absent or zero size becomes
      50; any other size, a negative one included, is kept. */
  function ChunkSize(given: Option<int>): (n: int)
    ensures n != 0
    ensures given.Some? && given.value != 0 ==> n == given.value
    ensures given.None? || given == Some(0) ==> n == DEFAULT_CHUNK_SIZE
  {
    match given
    case Some(v) => if v == 0 then DEFAULT_CHUNK_SIZE else v
    case None => DEFAULT_CHUNK_SIZE
  }

  /** `main` from `find_common` to `fetch_uncommon_info`; `iterate(s)` is
      the order in which a loop over the set `s` visits its elements. */
  function RunCore(chunkSize: Option<int>, groups: seq<GroupId>, friends: seq<UserId>,
                   isMember: MembershipOracle, iterate: set<GroupId> -> seq<GroupId>,
                   getById: GetByIdOracle): (r: Call<seq<GroupInfo>>)
    ensures var common := FindCommon(groups, friends, ChunkSize(chunkSize), isMember);
            common.result.Raised? ==> r == Call(Raised(common.result.exc), common.log)
    ensures var common := FindCommon(groups, friends, ChunkSize(chunkSize), isMember);
            common.result.Ok? ==>
              var order := iterate(Uncommon(groups, common.result.value));
              r.log == common.log + FetchUncommonInfo(getById, order).log
              && r.result == FetchUncommonInfo(getById, order).result
              && (r.result.Ok? ==> r.result.value == Somes(Entries(getById, order)))
              && (r.result.Raised? <==>
                    exists i :: 0 <= i < |order| && FetchGroup(getById, order[i]).result.Raised?)
  {
    var common := FindCommon(groups, friends, ChunkSize(chunkSize), isMember);
    match common.result
    case Raised(e) => Call(Raised(e), common.log)
    case Ok(cs) =>
      var order := iterate(Uncommon(groups, cs));
      var info := FetchUncommonInfo(getById, order);
      Call(info.result, common.log + info.log)
  }

  /** When the loop over a set visits each of its elements once, an entry
      is reported exactly when it is the entry described by the reply about
      a group of the user about which no reply reported a friend as a
      member; and there are at most as many entries as uncommon groups. */
  lemma RunCoreReportsUncommonOnly(chunkSize: Option<int>, groups: seq<GroupId>, friends: seq<UserId>,
                                   isMember: MembershipOracle, iterate: set<GroupId> -> seq<GroupId>,
                                   getById: GetByIdOracle, info: GroupInfo)
    requires forall s: set<GroupId>, g :: g in iterate(s) <==> g in s
    requires forall s: set<GroupId> :: |iterate(s)| == |s|
    requires RunCore(chunkSize, groups, friends, isMember, iterate, getById).result.Ok?
    ensures info in RunCore(chunkSize, groups, friends, isMember, iterate, getById).result.value <==>
              exists g :: && g in groups
                          && (forall chunk :: chunk in Chunks(friends, ChunkSize(chunkSize)) ==>
                                !Confirms(isMember, g, chunk))
                          && EntryOf(getById, g) == Some(info)
    ensures |RunCore(chunkSize, groups, friends, isMember, iterate, getById).result.value|
         <= |Uncommon(groups, FindCommon(groups, friends, ChunkSize(chunkSize), isMember).result.value)|
  {
    var amount := ChunkSize(chunkSize);
    var common := FindCommon(groups, friends, amount, isMember);
    var u := Uncommon(groups, common.result.value);
    var order := iterate(u);
    UncommonIffNoMember(groups, friends, amount, isMember, common.result.value);
    FetchComplete(getById, order, info);
    if exists g :: && g in groups
                   && (forall chunk :: chunk in Chunks(friends, amount) ==> !Confirms(isMember, g, chunk))
                   && EntryOf(getById, g) == Some(info) {
      var g :| && g in groups
               && (forall chunk :: chunk in Chunks(friends, amount) ==> !Confirms(isMember, g, chunk))
               && EntryOf(getById, g) == Some(info);
      assert g in u;
      assert g in order;
      var i :| 0 <= i < |order| && order[i] == g;
    }
    if info in FetchUncommonInfo(getById, order).result.value {
      var i :| 0 <= i < |order| && EntryOf(getById, order[i]) == Some(info);
      assert order[i] in u;
    }
  }

  /** A negative chunk size (allowed on the command line) leaves no chunk
      to request: no group is common and every group of the user is
      reported uncommon. */
  lemma NegativeChunkSizeSkipsEveryCheck(n: int, groups: seq<GroupId>, friends: seq<UserId>,
                                         isMember: MembershipOracle)
    requires n < 0
    ensures FindCommon(groups, friends, ChunkSize(Some(n)), isMember) == Call(Ok({}), [])
    ensures Uncommon(groups, {}) == ToSet(groups)
  {
    assert ChunkSize(Some(n)) == n;
    var common := FindCommon(groups, friends, n, isMember);
    assert Chunks(friends, n) == [];
    assert common.result.Ok?;
    assert common.result.value == {};
    assert common.log == GroupLogs(CheckOf(isMember), groups, []);
    EmptyGroupLogs(CheckOf(isMember), groups);
  }

  lemma {:induction false} EmptyGroupLogs(check: ChunkCheck, groups: seq<GroupId>)
    ensures GroupLogs(check, groups, []) == []
    decreases |groups|
  {
    if |groups| > 0 {
      EmptyGroupLogs(check, groups[1..]);
    }
  }

  /** The `groups.isMember` replies of the worked example: friend 1 is a
      member of group 20, nobody else is a member of anything. */
  function ExampleIsMember(g: GroupId, chunk: seq<UserId>, k: nat): Attempt<Envelope<seq<MemberStatus>>>
  {
    Answered(Envelope(Some(if g == 20 && chunk == [1] then [MemberStatus(1, true)]
                           else [MemberStatus(0, false)]), None, None))
  }

  /** The order in which the worked example visits the set of its uncommon groups. */
  function ExampleOrder(s: set<GroupId>): seq<GroupId>
  {
    if s == {10, 30} then [10, 30] else []
  }

  /** The `groups.getById` replies of the worked example. */
  function ExampleGetById(g: GroupId, k: nat): Attempt<Envelope<seq<GroupRecord>>>
  {
    Answered(Envelope(Some([GroupRecord("group", g, None)]), None, None))
  }

  /** The replies of the worked example, request by request. */
  lemma ExampleReplies(g: GroupId, chunk: seq<UserId>)
    ensures Confirms(ExampleIsMember, g, chunk) <==> g == 20 && chunk == [1]
    ensures !Aborts(ExampleIsMember, g, chunk)
    ensures IsMemberCall(ExampleIsMember, g, chunk).log == []
    ensures CheckChunk(ExampleIsMember, g, chunk).log == []
  {
    IsMemberCallAnswered(ExampleIsMember, g, chunk);
    assert [MemberStatus(1, true)][0].member;
  }

  lemma ExampleChunks()
    ensures Chunks([1, 2], 1) == [[1], [2]]
  {
    assert [1, 2][..1] == [1] && [1, 2][1..] == [2];
    assert Chunks([2], 1) == [[2]];
  }

  /** Each iteration of the worked example finds a member exactly for
      group 20 and the chunk `[1]`, and logs nothing. */
  lemma ExampleCheck(g: GroupId, chunk: seq<UserId>)
    ensures CheckOf(ExampleIsMember)(g, chunk) == Call(Ok(g == 20 && chunk == [1]), [])
  {
    ExampleReplies(g, chunk);
  }

  lemma ExampleGroup(g: GroupId)
    ensures CheckGroup(CheckOf(ExampleIsMember), g, [[1], [2]]) == Call(Ok(g == 20), [])
  {
    ExampleCheck(g, [1]);
    ExampleCheck(g, [2]);
    var none: seq<LogEntry> := [];
    assert [[1], [2]][1..] == [[2]] && [[2]][1..] == [];
    assert CheckGroup(CheckOf(ExampleIsMember), g, [[2]]) == Call(Ok(false), none + none);
  }

  lemma ExampleCommonOf()
    ensures CommonOf(CheckOf(ExampleIsMember), [10, 20, 30], [[1], [2]]) == Call(Ok({20}), [])
  {
    ExampleGroup(10);
    ExampleGroup(20);
    ExampleGroup(30);
    var check := CheckOf(ExampleIsMember);
    var chunks := [[1], [2]];
    var none: seq<LogEntry> := [];
    var empty: set<GroupId> := {};
    assert [10, 20, 30][1..] == [20, 30] && [20, 30][1..] == [30] && [30][1..] == [];
    assert CommonOf(check, [30], chunks) == Call(Ok(empty), none + none);
    assert {20} + empty == {20};
    assert CommonOf(check, [20, 30], chunks) == Call(Ok({20}), none + none);
  }

  lemma ExampleCommon()
    ensures FindCommon([10, 20, 30], [1, 2], 1, ExampleIsMember) == Call(Ok({20}), [])
  {
    ExampleChunks();
    ExampleCommonOf();
  }

  /** Groups 10, 20, 30, friends 1 and 2, chunks of one friend, and friend
      1 a member of group 20: group 20 is common, 10 and 30 are not. */
  lemma WorkedExampleCommon()
    ensures FindCommon([10, 20, 30], [1, 2], ChunkSize(Some(1)), ExampleIsMember) == Call(Ok({20}), [])
    ensures Uncommon([10, 20, 30], {20}) == {10, 30}
  {
    assert ChunkSize(Some(1)) == 1;
    ExampleCommon();
    ExampleUncommon();
  }

  lemma ExampleUncommon()
    ensures Uncommon([10, 20, 30], {20}) == {10, 30}
  {
    assert ToSet([10, 20, 30]) == {10, 20, 30};
  }

  /** The metadata of groups 10 and 30, fetched in that order. */
  lemma WorkedExampleFetch()
    ensures FetchUncommonInfo(ExampleGetById, [10, 30])
         == Call(Ok([GroupInfo("group", 10, Marker(UNAVAILABLE)),
                     GroupInfo("group", 30, Marker(UNAVAILABLE))]), [])
  {
    ExampleFetchGroup(10);
    ExampleFetchGroup(30);
    var info10 := GroupInfo("group", 10, Marker(UNAVAILABLE));
    var info30 := GroupInfo("group", 30, Marker(UNAVAILABLE));
    var none: seq<GroupInfo> := [];
    var nothing: seq<LogEntry> := [];
    assert FetchUncommonInfo(ExampleGetById, []) == Call(Ok(none), nothing);
    assert [30][1..] == [];
    assert [info30] + none == [info30] && nothing + nothing == nothing;
    assert FetchUncommonInfo(ExampleGetById, [30]) == Call(Ok([info30]), nothing);
    assert [10, 30][1..] == [30];
    assert [info10] + [info30] == [info10, info30];
  }

  lemma ExampleFetchGroup(g: GroupId)
    ensures FetchGroup(ExampleGetById, g) == Call(Ok(Some(GroupInfo("group", g, Marker(UNAVAILABLE)))), [])
  {
    GetByIdCallAnswered(ExampleGetById, g);
  }

  /** The whole run of the worked example: metadata is fetched exactly for
      groups 10 and 30, and nothing is logged. */
  lemma WorkedExample()
    ensures RunCore(Some(1), [10, 20, 30], [1, 2], ExampleIsMember, ExampleOrder, ExampleGetById)
         == Call(Ok([GroupInfo("group", 10, Marker(UNAVAILABLE)),
                     GroupInfo("group", 30, Marker(UNAVAILABLE))]), [])
  {
    WorkedExampleCommon();
    WorkedExampleFetch();
    var common := FindCommon([10, 20, 30], [1, 2], ChunkSize(Some(1)), ExampleIsMember);
    assert ExampleOrder(Uncommon([10, 20, 30], common.result.value)) == [10, 30];
  }
}
