# spygame core, modelled in Dafny

`spygame.py` asks a social network's HTTP API for the groups of a user
that none of the user's friends belong to. This project models the part
of the program that computes that answer:

- `make_request`: one API call, retried while the read times out
  (`retry.dfy`, module `Retry`).
- `APIError` and the `except APIError` clauses that print its message and
  log its body (`api.dfy`, module `Api`).
- `get_chunk`: the friend list cut into slices of `amount` ids
  (`chunking.dfy`, module `Chunking`).
- `find_common`: one `groups.isMember` request per group and chunk, and
  then the set difference `set(user_groups) - common_groups` from `main`
  (`common.dfy`, module `Common`).
- `fetch_uncommon_info`: one `groups.getById` request per uncommon group
  (`metadata.dfy`, module `Metadata`).
- `main` from the chunk-size default to the fetched metadata, with a
  worked example (`spygame.dfy`, module `SpyGame`).

The network is a parameter. `attempt(k)` is the outcome of the `k`-th
attempt of one request: a reply, a read timeout, or another transport
failure. For the two API methods this becomes an oracle indexed by the
request's parameters and the attempt number (`MembershipOracle`,
`GetByIdOracle`). Every function that makes a request returns a `Call`: a result, which is a
value or the exception that escaped, together with the entries it
appended to the global `log` list, in order. Entries logged before an
exception stay in the log.

Three facts about the code shape the model:

- The `break` at spygame.py:144 only leaves the loop over the entries of
  one reply. The loop over chunks goes on, so every chunk of every group
  is requested, even after a member has been found. `CheckGroup` and
  `CommonOfLog` state this.
- Only `APIError` is caught (spygame.py:135, 169). The `ReadTimeout` that
  `make_request` raises after three attempts therefore ends the whole
  call of `find_common` or `fetch_uncommon_info`, and so does any reply
  the handler cannot deal with. `FindCommon` and `FetchUncommonInfo`
  raise exactly when some iteration raises: either its request raises,
  or its reply cannot be handled.
- Only `requests.exceptions.ReadTimeout` is retried (spygame.py:293). Any
  other transport exception escapes at once as `RequestFailure`.

## Model

| member | source | states |
|---|---|---|
| Api.NewApiError | spygame.py:34-40 | `body` and `message` are set together, and exactly when the reply has `error` or `execute_errors`. `execute_errors` takes precedence: the message is the list and the body is the whole reply. With only `error`, the message is its `error_msg` and the body is the `error` object. |
| Api.Report | spygame.py:135-137 | The handler yields the entry to log, which is the error's body, exactly when both attributes were set. Otherwise it raises `AttributeError`. |
| Api.ReportedIffErrorKey | spygame.py:133-137 | A reply without `response` is logged and skipped exactly when it carries `error` or `execute_errors`. Any other such reply raises `AttributeError`. |
| Retry.RequestFrom | spygame.py:287-302 | Started after `tried` timeouts, the request makes at most `RETRY` attempts in all. It logs one note per timed-out attempt, with that attempt's message, in order. It returns the first attempt that does not time out (or raises its failure), or raises `ReadTimeout("Unable to retrieve data")` after `RETRY` timeouts. |
| Retry.Request | spygame.py:284-302 | `make_request` follows its attempts: every logged attempt timed out and its message is logged. Fewer than three notes means the next attempt settled the result. Three notes means `ReadTimeout("Unable to retrieve data")`. |
| Retry.FollowsAttemptsUnique | spygame.py:284-302 | The description above fixes the outcome and the log completely: two calls that both follow the same attempts are equal. |
| Retry.RequestBounds | spygame.py:287-300 | `ReadTimeout` is raised exactly when the first three attempts all time out. A reply is returned exactly when some attempt among the first three answers after nothing but timeouts. |
| Retry.RequestUsesFirstAttempts | spygame.py:287 | No attempt after the third is made: two transports that agree on the first three attempts give the same result and the same log. |
| Retry.FirstAttemptAnswered | spygame.py:287-302 | A first attempt that answers is returned as is, with nothing logged. |
| Retry.MakeRequest | spygame.py:284-302 | The `while` loop with its counter computes exactly the recursive `Request`: same result, same log. |
| Chunking.Chunks | spygame.py:220-230 | A negative `amount` yields no chunk. Every chunk is non-empty and at most `amount` long. Every chunk but the last is exactly `amount` long. |
| Chunking.ChunksConcat | spygame.py:229-230 | Joining the chunks back together gives the friend list, in order. Nothing is lost, duplicated or reordered. |
| Chunking.ChunkCount | spygame.py:229 | There are `ceil(len(friendlist) / amount)` chunks, and none for an empty list. |
| Chunking.ChunkSlice | spygame.py:229-230 | The `i`-th chunk is the slice `friendlist[i * amount : i * amount + amount]`, at the `i`-th index that `range(0, len, amount)` yields. That index lies inside the list, and the slice is clipped at its end. |
| Common.AnyMember | spygame.py:141-144 | The loop over a reply's entries, left at the first member, finds a member exactly when some entry has `member` set. |
| Common.CheckChunk | spygame.py:119-144 | One chunk reports a member exactly when its request's reply has a `response` with a member entry. It raises exactly when the request raises or the reply has none of `response`, `error` and `execute_errors`. A request's exception passes through unchanged with the request's log. A reply with none of the three keys raises `AttributeError`. For an error reply, the log is the request's log followed by the `APIError`'s body. |
| Common.CheckGroup | spygame.py:119-144 | The loop over chunks raises exactly when some chunk's iteration raises. It then raises the exception of the first chunk that raised, and its log holds the entries of every earlier chunk and of that one. Otherwise the group is found common exactly when some chunk finds a member, and the log holds every chunk's entries in order, with no chunk skipped. |
| Common.CommonOf | spygame.py:112-146 | Every group the loop over groups reports as common is one of the user's groups; the four lemmas below characterise its result, exception and log. |
| Common.CommonOfRaises | spygame.py:112-146 | The loop over groups raises exactly when some iteration about some group raises. |
| Common.CommonOfMembers | spygame.py:112-146 | Without an exception, a group is in the result exactly when it is one of the user's groups and some chunk's iteration about it finds a member. |
| Common.CommonOfLog | spygame.py:112-146 | Without an exception, the log holds the entries of every chunk of every group, in request order. |
| Common.CommonOfRaisedAt | spygame.py:112-146 | When the loop over groups raises, it raises the exception of the first group whose iteration raised. The log holds the entries of every earlier group and those of that group up to its exception. |
| Common.CommonOfRaisedAtChunk | spygame.py:112-146 | When the loop over groups raises, the exception is that of the first chunk that raised in the first group that raised. The log holds every earlier iteration's entries and that chunk's. |
| Common.CheckOfMeaning | spygame.py:119-144 | For the body of `find_common`, "some chunk finds a member" means that some chunk's reply confirms a member. "Some chunk raises" means that some chunk's request aborts. |
| Common.FindCommon | spygame.py:99-146 | The common groups are exactly the user's groups for which some chunk's reply reports a member. The call raises exactly when some request about some group and chunk aborts. It then raises the exception of the first group that raised, with the log up to that point. Without an exception, the log holds every request's entries. |
| Common.FindCommonRaisedAt | spygame.py:99-146 | When `find_common` raises, it does so at the first request that aborts. Every earlier group and chunk went through. The exception is that request's own: its transport exception, or `AttributeError` for a reply with no known key. The log holds the entries of every request up to and including it. |
| Common.Uncommon | spygame.py:377 | The uncommon groups are disjoint from the common ones and lie among the user's groups. When the common groups are among the user's groups, the two sets partition them. |
| Common.UncommonIffNoMember | spygame.py:377 | After `find_common`, a group is uncommon exactly when it is one of the user's groups and no reply about any chunk reported a member. |
| Common.RejectedGroupIsUncommon | spygame.py:133-137 | A group all of whose requests got error replies is never common: an error reply counts as no member. |
| Metadata.InfoOf | spygame.py:173-177 | The entry takes its name and its `gid` from the first record of the reply. A missing `members_count` becomes the text `"Unavailable"`. |
| Metadata.FetchGroup | spygame.py:159-177 | One group yields an entry exactly when the reply has a non-empty `response`, and the entry is built from its first record. It is logged and skipped exactly when the reply is an error reply, and the entry logged is the `APIError`'s body. A request's exception passes through unchanged with the request's log. An empty `response` list raises `IndexError`, and a reply with none of the three keys raises `AttributeError`. |
| Metadata.FetchGroupEntry | spygame.py:166-177 | Whatever one iteration keeps, when it does not raise, is the entry its reply describes: the first record of a non-empty `response`, or nothing. |
| Metadata.SomesMembers | spygame.py:177 | A value is among those kept exactly when it is present at some position. |
| Metadata.FetchLoop | spygame.py:159-179 | The loop over groups raises exactly when some iteration raises. It then raises the exception of the first iteration that raised, and its log holds the entries of every earlier iteration and of that one. Otherwise it returns what every iteration kept, in iteration order, and its log holds every iteration's entries. |
| Metadata.OutcomesAreEntries | spygame.py:159-177 | When no iteration raises, what each iteration keeps is the entry its reply describes, position by position. |
| Metadata.FetchUncommonInfo | spygame.py:149-179 | The call raises exactly when some group's iteration raises. It then raises the exception of the first group that raised, with the entries of every request up to and including it in the log. Otherwise the result is the entry of every group whose reply described one, in iteration order, with nothing for the skipped groups. There is at most one entry per group, and the log holds every request's entries. |
| Metadata.FetchLoopAborted | spygame.py:159-179 | When the loop over the groups raises, it does so at the first group whose iteration raised, with that group's exception. The log holds the entries of the requests up to it. |
| Metadata.FetchComplete | spygame.py:159-179 | Without an exception, an entry is returned exactly when the reply about some group described it. |
| SpyGame.ChunkSize | spygame.py:347-348 | An absent or zero chunk size becomes 50. Any other size, negative ones included, is kept. The result is never zero. |
| SpyGame.RunCore | spygame.py:368-388 | An exception in `find_common` ends the run, with its log. Otherwise the run's log is `find_common`'s log followed by `fetch_uncommon_info`'s. The run raises exactly when some uncommon group's iteration raises, and then with the exception `fetch_uncommon_info` raised, unchanged. Without an exception, its entries are those of the uncommon groups, kept in iteration order. |
| SpyGame.RunCoreReportsUncommonOnly | spygame.py:368-388 | Suppose the loop over a set visits each of its elements once. Then an entry is reported exactly when it is described by the reply about one of the user's groups about which no reply reported a friend as a member. There are at most as many entries as uncommon groups. |
| SpyGame.NegativeChunkSizeSkipsEveryCheck | spygame.py:345-377 | A negative chunk size leaves no chunk to request. No group is common, nothing is logged, and every group of the user is uncommon. |
| SpyGame.WorkedExampleCommon | spygame.py:99-146 | Groups 10, 20 and 30 with friends 1 and 2, chunked one by one, where friend 1 is in group 20: only group 20 is common, and groups 10 and 30 are uncommon. |
| SpyGame.WorkedExampleFetch | spygame.py:149-179 | Fetching groups 10 and 30, whose replies carry no member count, yields their two entries in that order, each marked `"Unavailable"`. |
| SpyGame.WorkedExample | spygame.py:345-388 | The whole run of the example returns the entries of groups 10 and 30 and logs nothing. |

## Left out

- Authorization (`authorize`, `get_token`, the OAuth session and the token file) is left out. It is I/O and is not part of the computation.
- `fetch_user_info` is left out. The user's groups and friends are parameters of the model.
- The transport is left out: the POST/GET choice, the URL, the `(10, 5)` timeouts and the request parameters. Each request is an oracle `attempt(k)`.
- `sleep`, the status lines and other `print` calls are left out. They do not change any result. `Report` models the printed message only as the attribute read that may raise.
- `parse_arguments`, `print_and_write`, the JSON output file and the log file are left out. They are I/O.
- `.json()` failing on a body that is not JSON is left out. A reply is already a decoded object.
- A `KeyError` from a missing `member`, `error_msg`, `name` or `id` key is left out. The model's records always carry these keys.
- Chunk size 0 is left out: `range` refuses a zero step. `Chunks` requires a non-zero size. `main` never passes zero because `ChunkSize` replaces it with 50.
- Common.FindCommon: a group listed twice is requested twice, and the oracle gives both requests the same answers. A real network could answer them differently.
- Metadata.FetchUncommonInfo: the order in which Python iterates over a set is not modelled. It is the parameter `order`, and in `RunCore` the function `iterate`.
- Common.MemberStatus: the `member` flag is a boolean. The API sends 0 or 1, and Python treats them by truthiness.
- Api.NewApiError: the body logged for an `execute_errors` reply keeps only its `error` and `execute_errors` keys. Other keys of the reply object are dropped.
- The global `token` dictionary and the module-level `log` list are not modelled as state. Each call's log entries are part of its result.
