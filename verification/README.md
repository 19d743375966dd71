# rs-waku: verified models of the node's core

A Dafny model of the parts of rs-waku whose guarantees span many calls: the RLN
inbound validator, the message store and its pagination, the DNS node-list walk,
the request rate limiter, the filter registry, the ip-colocation guard, the REST
message cache and the wire codecs. Objects that the node updates in place are
classes whose methods are proved against specification functions; the lemmas are
about those functions, over every input, every history or every run.

`dafny verify dfyconfig.toml` checks the whole project.

## How it is organised

- `PrimeField`, `Rln`, `RlnValidator`: shares on a line in a prime field, the
  nullifier log, and runs of registrations, received proofs and forgotten epochs.
  The proof system is idealised by the predicate `Sound`: a proof that verifies
  was made by a registered identity for a slot below its limit, its nullifier is
  a function of (secret, epoch, slot) and its share lies on the line of that
  triple. `CollisionFree` (a nullifier belongs to one secret and slot) and
  `DistinctEpochKeys` are assumed only where they are named, and
  `AssumptionsAreConsistent` shows all of them hold together in a small field,
  with a run in which a double signal is flagged. Modular inverses are constructed
  and proved from primality. The node's validator keeps its log private and never
  calls `forget_epoch`; runs with `Forgot` events are those of a validator extended
  with that call.
- `StoreOrder`, `KeysetWalk`, `Store`, `StorePaging`, `ChangingStore`, `Retention`,
  `StoreUpkeep`, `PagingExamples`, `StoreWire`: the table as a finite map from hash
  to row under the order (sort_time, hash); keyset pagination first in the abstract,
  then for the query as it is built, on a fixed store, on one that changes
  arbitrarily between pages, under puts and retention, and over the wire. The node
  itself calls neither `delete_older_than` nor `enforce_capacity`; retention runs are
  those of an embedding that does.
- `TreeWalk`, `EnrTree`, `Text`: the worklist search with its visited set and
  budget over an arbitrary graph, and the DNS tree on top of it.
- `RateLimit`: the token bucket over real-valued time.
- `FilterRegistry`, `IpGuard`, `MessageCache`: in-memory bookkeeping against the
  history of calls or events.
- `Framing`, `RelayShards`, `Topics`, `Validation`: codecs and the validation rules.
- `Common`, `OrderedLists`: vocabulary, and lists strictly ordered by any relation.

## Where the code and its documentation differ

The model follows the code in each case.

- The ip-colocation guard is documented to cap concurrent connections per IP. A
  connection that is turned away is not counted, but its close event is. The cap
  withstands any further connections throughout a run if and only if every such
  close finds the counter at zero (`CapIsKeptExactly`); `CounterBalance` gives the
  exact excess of admitted connections over the counter, and `LimitIsExceeded`
  shows that any excess is reached for every limit.
- The 20 s timestamp rule compares whole seconds after truncation, so the window
  in effect is 21 s (`TimestampWindow`); the subtraction wraps, so the plain
  distance decides if and only if no 64-bit time on the far side of the wrap is
  less than 21 s away (`PlainDistanceDecides`).
- `enforce_capacity` casts its limit to a signed integer; from 2^63 on it deletes
  everything (`CapacityIsHonoured`).
- A page size of 2^64 - 1 yields an empty page without a continuation; every other
  page size, cast or not, walks the whole result (`FixedStoreWalk`). Arithmetic
  wraps, as in a release build; with overflow checks a page size of 2^63 - 1
  panics instead.
- A pagination cursor is a hash, and the query resumes where that hash is in the
  order now. If its row has been deleted the walk starts over (`LostCursorRestarts`);
  if its message had no timestamp and was deleted and received again, the row has
  come back at another place. `ResumesExactly` says exactly when resumption still
  works, and `PagingExactlyOnce` counts exactly how often a row that stays put is
  shown: once, plus the times it is revisited, minus the times it is skipped.
  Backward, a row can be shown twice (`BackwardWalkRepeats`). Forward, retention
  deletes the oldest rows, so a row that stays is never revisited; it is shown once if
  no cursor's row came back at or past it and otherwise never
  (`ForwardPagingUnderUpkeep`, `ForwardWalkMisses`). If hashes determine sort times, as
  when every message carries a timestamp, it is always shown once
  (`ForwardPagingWithTimestamps`).
- `ShardId::parse` also accepts a plus sign and leading zeros, which printing does
  not reproduce (`ShardIdRoundTripBack`).
- The frame writer has no length limit, the reader has (`FrameRoundTrip`).

## Model

| member | source | states |
|---|---|---|
| Rln.NullifierLog.Observe | crates/waku-rln/src/lib.rs:144-164 | Records the share only when the (epoch, nullifier) pair is new, and classifies it as fresh, replay, double signal with the recovered secret, or an error when two different shares have the same x. |
| Rln.NullifierLog.ForgetEpoch | crates/waku-rln/src/lib.rs:166-169 | Removes exactly the epoch's nullifiers. |
| Rln.RecoversSecret | crates/waku-rln/src/lib.rs:156-161 | For any prime field and any line, two shares with different x give back the line's constant term; two with equal x give an error. |
| Rln.LogKeepsFirstShare | crates/waku-rln/src/lib.rs:149-169 | After any history of observations and forgets, the log holds a share for a pair if and only if it is that of the first sighting since the epoch was last forgotten. |
| Rln.LaterShareRecovers | crates/waku-rln/src/lib.rs:150-162 | After any history, a later share on the same line is a replay if its x is that of the first, and otherwise yields exactly the line's secret. |
| Rln.ObservedExactly | crates/waku-rln/src/lib.rs:144-164 | After any history, a proof is fresh if and only if its pair was not sighted since its epoch was last forgotten; otherwise, against the first sighting, a replay if the share is equal, an error if only x is, else a double signal. |
| RlnValidator.RlnValidator.Register | crates/waku-rln/src/lib.rs:195-202 | Appends the identity at the next free leaf and returns its index, or fails and changes nothing when the depth-20 tree is full. |
| RlnValidator.MembersExactly | crates/waku-rln/src/lib.rs:195-202 | After any run, the members are the registered identities in order, up to 2^20 of them. |
| RlnValidator.RlnValidator.VerifyInbound | crates/waku-rln/src/lib.rs:316-344 | Verdict and new state are those of one step of the state machine: signal binding, proof, epoch window, then the log. |
| RlnValidator.AdmittedExactly | crates/waku-rln/src/lib.rs:296-337 | A bound, verified proof for epoch k is admitted if and only if epochSizeSecs * k <= now < epochSizeSecs * (k + 2); a configured length of 0 counts as 1. |
| RlnValidator.RateLimit | crates/waku-rln/src/lib.rs:316-344 | In every run of registrations and received proofs, with any interleaving, replays and times, one secret has at most `limit` distinct signal hashes accepted unflagged per epoch. |
| RlnValidator.AcceptedExactly | crates/waku-rln/src/lib.rs:316-344 | With collision-free nullifiers, the signal hashes accepted unflagged of a secret in an epoch are exactly those the log holds for its slots below the limit. |
| RlnValidator.FlaggedExactly | crates/waku-rln/src/lib.rs:338-343 | A proof that passes the gates is flagged if and only if the first admitted proof with its nullifier in its epoch carried another x. |
| RlnValidator.FlagConvicts | crates/waku-rln/src/lib.rs:119-124 | Whenever a proof is flagged, the same secret spent the same slot of that epoch on another signal earlier in the run, and the recovered secret is that secret; so who uses each slot once is never flagged. |
| RlnValidator.ForgettingIsInvisible | crates/waku-rln/src/lib.rs:166-169 | For a validator that may also forget epochs: under a clock that never runs back, forgetting epochs older than current - 1 at arbitrary points gives the same verdict sequence as never forgetting, and keeps the rate limit. |
| RlnValidator.ForgettingLiveEpochClearsFlag | crates/waku-rln/src/lib.rs:166-169 | The age bound is needed: forgetting the epoch of any proof about to be flagged clears the flag. |
| RlnValidator.SecondSignalIsFlagged | crates/waku-rln/src/lib.rs:316-344 | After any run, of two proofs that pass the gates for a slot not used before, with different x, the first passes unflagged and the second is then flagged. |
| RlnValidator.AssumptionsAreConsistent | crates/waku-rln/src/lib.rs:316-344 | There is a proof system that meets every assumption and a run in which a proof is flagged. |
| Store.SqliteStore.Put | crates/waku-store/src/sqlite.rs:136-164 | Adds the row under the message hash with sort_time from the timestamp or else the receiver time; an existing hash is left untouched. |
| Store.SqliteStore.Query | crates/waku-store/src/sqlite.rs:174-261 | Returns the page and continuation that the filters, the cursor predicate, the order, LIMIT limit + 1 and the 64-bit casts define. |
| Store.Collect | crates/waku-store/src/sqlite.rs:238-250 | The messages of a page are those of its rows, one by one in order, with data only when asked for. |
| StorePaging.PutThenQuery | crates/waku-store/src/sqlite.rs:136-261 | A message put under a new hash is found by exactly the queries whose topic, content topics, hashes and half-open time range it meets, at its timestamp or else its receiver time, and comes back with the topic, content and receiver time it was put with; no other row changes, and a hash already stored changes nothing. |
| StoreOrder.SortedIsSorted | crates/waku-store/src/sqlite.rs:225-229 | Ordering a set of keys yields each key once in strictly increasing (or decreasing) order. |
| StoreOrder.LexLessExactly | crates/waku-store/src/sqlite.rs:225-229 | Hashes are ordered by their first differing byte. |
| KeysetWalk.AscendsExactly | crates/waku-store/src/sqlite.rs:175-229 | Pages that resume from arbitrary cursors are together strictly ordered if and only if no page can show a key that is not past the page before. |
| KeysetWalk.ShownTimes | crates/waku-store/src/sqlite.rs:175-256 | Wherever each page resumes, a key present at every page is shown once if past the start, plus once for each page that resumes before it after it was behind, minus once for each that resumes at or past it while it was to come. |
| StorePaging.PageShape | crates/waku-store/src/sqlite.rs:231-256 | For every page size a page is a prefix of the ordered selection, and the continuation is its last hash exactly when more may follow. |
| StorePaging.NextSelects | crates/waku-store/src/sqlite.rs:209-223 | The query resumed after the n-th selected row selects exactly the rest, forward or backward. |
| StorePaging.FixedStoreWalk | crates/waku-store/src/sqlite.rs:174-261 | Concatenating the pages gives exactly the matching rows in order if and only if the page size is not 2^64 - 1 (or nothing matches). |
| StorePaging.PageCount | crates/waku-store/src/sqlite.rs:231-256 | The walk takes max(1, ceil(n / size)) pages; from a page size of 2^63 on, two if anything matches and else one, and one for 2^64 - 1. |
| StorePaging.BackwardWalk | crates/waku-store/src/sqlite.rs:210-229 | The backward walk shows the exact reverse of the forward walk. |
| StorePaging.TimeRangesJoin | crates/waku-store/src/sqlite.rs:202-207 | Lower bounds are inclusive and upper bounds exclusive: two adjoining time ranges one after the other list exactly what the whole range lists. |
| ChangingStore.ResumesExactly | crates/waku-store/src/sqlite.rs:175-223 | A query with a cursor selects the matching rows past the place at which the cursor was handed out if and only if its row is stored and nothing that matches lies between that place and its present one, or it is gone and everything that matches is past that place. |
| ChangingStore.ShownRowsMatch | crates/waku-store/src/sqlite.rs:174-261 | Whatever changes between pages, each message shown is the content that a matching row had in one of the tables. |
| ChangingStore.PagingInOrder | crates/waku-store/src/sqlite.rs:174-261 | Whatever changes between pages, the places of the rows shown come strictly in walking order if and only if no page can select anything behind the place at which its cursor was handed out; a row that never moves is then shown at most once. |
| ChangingStore.PagingExactlyOnce | crates/waku-store/src/sqlite.rs:174-261 | Whatever changes between pages, a matching row that stays put is shown once if past the start, plus the times it is revisited, minus the times it is skipped; so exactly once if and only if these are equal. |
| ChangingStore.PagingWithSteadyCursors | crates/waku-store/src/sqlite.rs:174-261 | As long as no cursor's row comes back at another place, a matching row that stays put is never missed, and is shown exactly once if and only if it is past every cursor whose row was gone. |
| StoreUpkeep.ForwardPagingUnderUpkeep | crates/waku-store/src/sqlite.rs:73-261 | While messages are put and both kinds of retention run between pages, in any number and order, a forward walk shows a matching row that stays exactly once if no cursor's row came back at or past it, and otherwise never. |
| StoreUpkeep.ForwardPagingWithTimestamps | crates/waku-store/src/sqlite.rs:73-261 | If the hash of every message stored determines its sort_time, a forward walk under any such upkeep shows every matching row that stays exactly once, even when the rows its cursors name are deleted. |
| StoreUpkeep.RetentionIsResumable | crates/waku-store/src/sqlite.rs:73-95 | After any sequence of retention runs, a forward walk can be resumed from any cursor, deleted or not. |
| StoreUpkeep.ForwardPagingUnderRetention | crates/waku-store/src/sqlite.rs:73-261 | When retention is what runs last before each page, a forward walk shows places strictly in order, no row that never moves twice, and every matching row that stays put exactly once. |
| PagingExamples.BackwardWalkRepeats | crates/waku-store/src/sqlite.rs:73-223 | There is a backward walk over three rows in which age retention deletes the cursor's row and a row that is there throughout is shown twice. |
| PagingExamples.ForwardWalkMisses | crates/waku-store/src/sqlite.rs:73-223 | There is a forward walk over two rows in which the cursor's message, without a timestamp, expires and is received again, and a row that is there throughout is never shown. |
| StoreUpkeep.PagingUnderPuts | crates/waku-store/src/sqlite.rs:136-261 | While arbitrary messages are put between pages, forward or backward, every matching row present from the first page is shown exactly once and no row twice. |
| ChangingStore.LostCursorRestarts | crates/waku-store/src/sqlite.rs:175-178 | A cursor whose row is gone gives the same page as no cursor. |
| Store.SqliteStore.DeleteOlderThan | crates/waku-store/src/sqlite.rs:73-80 | Keeps exactly the rows with sort_time at or after the cutoff and returns how many went. |
| Store.SqliteStore.EnforceCapacity | crates/waku-store/src/sqlite.rs:82-95 | Deletes the rows beyond the offset in descending order and returns how many went. |
| Retention.RetentionCommutes | crates/waku-store/src/sqlite.rs:73-95 | Both orders of age and capacity retention leave the same rows: those young enough with fewer than `max` more recent ones. |
| Retention.RetainedAreTheNewest | crates/waku-store/src/sqlite.rs:82-95 | The retained rows are upward closed in (sort_time, hash). |
| Retention.CappedSize | crates/waku-store/src/sqlite.rs:83-95 | Capacity retention keeps min(offset, count) rows. |
| Retention.RetentionCounts | crates/waku-store/src/sqlite.rs:73-95 | Both orders delete the same total and keep min(offset, number of young rows). |
| Retention.CapacityIsHonoured | crates/waku-store/src/sqlite.rs:82-91 | Exactly min(max, count) rows are kept if and only if max is below 2^63 or the store is empty. |
| StoreWire.RequestSelectsExactly | crates/waku-store/src/store_query.rs:96-115 | A request without a cursor (or with a malformed one) selects exactly the stored rows it asks for: topic, content topics, hashes (malformed ones are ignored, and so is a list of only such) and the half-open time range. |
| StoreWire.ServedPage | crates/waku-store/src/store_query.rs:96-143 | For limits below 2^63, an answer echoes the request id, reports 200 OK, carries min(n, max(1, limit or 20)) of the n selected rows, and names its last row as continuation if and only if it leaves rows out. |
| StoreWire.WireFollowsStore | crates/waku-store/src/store_query.rs:96-143 | A remote client copying each cursor back receives exactly the messages of the local walk. |
| StoreWire.WireClientSeesAll | crates/waku-store/src/store_query.rs:117-143 | It receives every matching row once, in order, with the row's hash, topic and, when asked for, message. |
| StoreWire.WireOrder | crates/waku-store/src/store_query.rs:96-143 | Rows arrive from earlier to later by (sort_time, hash) when the request says forward, and from later to earlier when not. |
| StoreWire.WireFollowsChanges | crates/waku-store/src/store_query.rs:96-143 | Whatever happens to the store between requests, a remote client copying each cursor back makes a walk of the store and receives exactly its messages, so each row as often as the walk shows it. |
| StoreWire.WirePagingUnderPuts | crates/waku-store/src/store_query.rs:96-143 | While arbitrary messages are put between requests, a remote client receives every row it asks for that was there from the start exactly once, and no row twice. |
| TreeWalk.Walk | crates/waku-discv5/src/dns.rs:140-186 | The loop over stack, visited set and budget ends on every input and lists the ENRs of the hashes fetched. |
| TreeWalk.WalkIsExact | crates/waku-discv5/src/dns.rs:140-186 | Only reachable hashes are fetched, each once, within budget; all of them if and only if at most the budget are reachable, and otherwise the whole budget is spent. |
| TreeWalk.DepthFirst | crates/waku-discv5/src/dns.rs:140-176 | Everything the upper part of the stack leads to is fetched before anything of the lower part. |
| TreeWalk.OmittingListsLess | crates/waku-discv5/src/dns.rs:145-182 | A reader that for each hash yields nothing or the same lists a sub-multiset of the ENRs. |
| EnrTree.Resolve | crates/waku-discv5/src/dns.rs:127-187 | Fails as the URL, the lookup, the missing root or the signature check does; otherwise returns the ENRs of the walk from the signed root hash. |
| EnrTree.RootOfExactly | crates/waku-discv5/src/dns.rs:127-138 | The walk starts from a domain and hash if and only if the URL names the domain and the first record there that starts with "enrtree-root:v1" carries the hash under the URL's key. |
| EnrTree.RootErrorExactly | crates/waku-discv5/src/dns.rs:127-138 | Otherwise the error is that of the URL, the lookup, a missing root record or the signature check, whichever fails first. |
| EnrTree.BranchRoundTrip | crates/waku-discv5/src/dns.rs:173-176 | A branch record reads back as the hashes it lists. |
| EnrTree.BranchReads | crates/waku-discv5/src/dns.rs:173-176 | Whitespace around the hashes of a branch and empty parts do not matter. |
| EnrTree.ResolvesReachableEnrs | crates/waku-discv5/src/dns.rs:140-186 | With at most 5000 hashes reachable through verified branches, the answer is the parseable ENR leaves of exactly those, one per hash; otherwise 5000 distinct reachable ones were fetched. |
| EnrTree.ListedExactly | crates/waku-discv5/src/dns.rs:140-186 | An ENR is listed once for every fetched hash under which the resolver serves a record that hashes to it, starts with "enr:" and parses to the ENR; only reachable hashes count, and all of them if at most 5000 are reachable. |
| EnrTree.ResolversCanOnlyOmit | crates/waku-discv5/src/dns.rs:167-182 | For a fixed root and no hash collision among the records served, any resolver's ENRs are a sub-multiset of an honest resolver's. |
| RateLimit.RateLimiter.constructor | crates/waku-node/src/ratelimit.rs:27-35 | At least one token; the refill fills the bucket in exactly one period; no peer is known. |
| RateLimit.RateLimiter.Allow | crates/waku-node/src/ratelimit.rs:37-54 | Allowed exactly when the refilled bucket holds a token; only this peer's bucket changes. |
| RateLimit.AllowedExactly | crates/waku-node/src/ratelimit.rs:45-53 | On any clock, a request is allowed if and only if it fits the window of itself and of every earlier request of the peer. |
| RateLimit.WindowBound | crates/waku-node/src/ratelimit.rs:45-53 | In every window, the requests allowed are at most the burst plus what was earned in it. |
| RateLimit.BucketsAreSeparate | crates/waku-node/src/ratelimit.rs:41-44 | After any requests, a peer's bucket is that of its own requests alone. |
| RateLimit.NextRequest | crates/waku-node/src/ratelimit.rs:28-54 | For nondecreasing times of the peer and any requests of others, the next request is allowed if and only if for every j the number allowed since j plus one is at most capacity + refill * (now - t_j). |
| RateLimit.SteadyWindowBound | crates/waku-node/src/ratelimit.rs:45-53 | For nondecreasing times, the requests of a peer allowed from j to n are at most capacity + refill * (t_n - t_j). |
| RateLimit.NeverRefusedExactly | crates/waku-node/src/ratelimit.rs:45-53 | For nondecreasing times, a peer is never refused if and only if every window of its requests, n - j + 1 of them, fits capacity + refill * (t_n - t_j). |
| FilterRegistry.FilterTable.ApplyFilterRequest | crates/waku-node/src/runtime.rs:67-94 | Subscribe appends, unsubscribe drops every identical filter, unsubscribe-all forgets the peer, anything else changes nothing; the answer is 200 OK, or 400 for an unknown type. |
| FilterRegistry.RetainLoop | crates/waku-node/src/runtime.rs:81-85 | Keeps, in order, the filters that differ in topic or content topics. |
| FilterRegistry.RegistryHoldsLive | crates/waku-node/src/runtime.rs:67-94 | After any requests, the registry holds a filter for a peer if and only if the peer subscribed it and did not later cancel it or everything. |
| FilterRegistry.PushFilterMatches | crates/waku-node/src/runtime.rs:96-118 | The list of peers pushed to has no duplicates, holds exactly the peers with a matching filter however many match, and its length is the number returned. |
| FilterRegistry.PushedExactly | crates/waku-node/src/runtime.rs:55-109 | After any requests, a peer is one of those pushed to if and only if it has a live filter for the pubsub topic or any, and for the content topic among others or any. |
| IpGuard.IpCounter.ConnectionEstablished | crates/waku-node/src/runtime.rs:931-946 | Counts the connection unless its IP is at the limit; turns away exactly then; stores no zero. |
| IpGuard.IpCounter.ConnectionClosed | crates/waku-node/src/runtime.rs:958-968 | Lowers the IP's count and drops the entry at zero. |
| IpGuard.CounterBalance | crates/waku-node/src/runtime.rs:931-968 | In every run with a positive limit no entry is zero or above the limit, the counter is at most the admitted connections, and these exceed it by exactly the closes of turned-away connections that lowered it less the closes of admitted ones that found it at zero. |
| IpGuard.ExactUnlessTurnedAway | crates/waku-node/src/runtime.rs:935-968 | The counter equals the open connections throughout a run if and only if none was turned away. |
| IpGuard.CountedExactly | crates/waku-node/src/runtime.rs:931-968 | The counter is the number of admitted connections throughout a run if and only if every close of a turned-away connection finds it at zero. |
| IpGuard.OpensAdmit | crates/waku-node/src/runtime.rs:935-946 | After any run, k further connections raise admitted connections and counter by min(k, limit - counter). |
| IpGuard.CapIsKeptExactly | crates/waku-node/src/runtime.rs:931-968 | At every moment of a run the cap withstands any further connections, if and only if every close of a turned-away connection finds the counter at zero. |
| IpGuard.LimitIsExceeded | crates/waku-node/src/runtime.rs:939-967 | For every positive limit and every excess there is a run that reaches that many admitted connections. |
| IpGuard.NoLimitNoGuard | crates/waku-node/src/runtime.rs:935-968 | With a limit of 0 nothing is ever counted or turned away. |
| MessageCache.RelayCache.Register | crates/waku-rest/src/lib.rs:45-52 | Starts an empty queue unless there is one. |
| MessageCache.RelayCache.Record | crates/waku-rest/src/lib.rs:54-63 | Appends to a registered topic's queue, dropping the oldest of 100. |
| MessageCache.RelayCache.Drain | crates/waku-rest/src/lib.rs:65-73 | Returns the topic's queue and empties it. |
| MessageCache.DrainReturnsExactly | crates/waku-rest/src/lib.rs:45-73 | After any calls, a drain returns in order exactly the last min(100, k) of the k messages recorded since the first registration or last drain, whichever is later; nothing if never registered. |
| Framing.WriteUvarint | crates/waku-store/src/store_query.rs:253-268 | Stays within the ten-byte buffer and writes the base-128 encoding. |
| Framing.ByteStream.ReadUvarint | crates/waku-store/src/store_query.rs:229-251 | Reads the positional value of the varint at the head of the stream and leaves what follows; a failed read consumes exactly the first ten bytes, or all if there are fewer, and is an overflow if and only if there are ten. |
| Framing.ByteStream.ReadLp | crates/waku-store/src/store_query.rs:202-216 | Reads one frame, refusing lengths above the limit; a failed read consumes at most ten bytes, or everything at the end of the stream. |
| Framing.ByteStream.WriteLp | crates/waku-store/src/store_query.rs:218-227 | Appends the length prefix and the payload. |
| Framing.OrIsSum | crates/waku-store/src/store_query.rs:233-249 | Bitwise or-ing a multiple of 2^n into a number below 2^n is adding. |
| Framing.LoopDecodes | crates/waku-store/src/store_query.rs:233-249 | The shift-and-or loop, with bits lost beyond 64, computes the positional value. |
| Framing.VarintRoundTrip | crates/waku-store/src/store_query.rs:229-268 | For every u64 and any suffix, reading what was written returns the value and the suffix. |
| Framing.ReaderGivesUp | crates/waku-store/src/store_query.rs:235-249 | Ten bytes with the high bit are consumed and an overflow; fewer are all consumed and an incomplete varint. |
| Framing.ReaderStops | crates/waku-store/src/store_query.rs:235-250 | Any other input is consumed up to its first byte without the high bit, at most ten bytes, and gives a value that fits 64 bits. |
| Framing.ReaderLeaves | crates/waku-store/src/store_query.rs:229-251 | On any input at most ten bytes are consumed; which of the two failures occurs depends on whether there are ten. |
| Framing.FailedReadLeaves | crates/waku-store/src/store_query.rs:202-216 | A frame refused as too long costs at most ten bytes, an overflow exactly ten, and a cut-short frame all that is left. |
| Framing.FrameRoundTrip | crates/waku-store/src/store_query.rs:202-227 | A frame reads back as its payload and the rest if and only if it is within the limit; otherwise it is refused. |
| Framing.FramesRoundTrip | crates/waku-store/src/store_query.rs:202-227 | Any concatenation of frames within the limit reads back as the same list. |
| RelayShards.New | crates/waku-enr/src/lib.rs:57-62 | Strictly increasing shards with the same members as the input. |
| RelayShards.ToIndicesList | crates/waku-enr/src/lib.rs:79-90 | Cluster, count and shards in big-endian, or an error above 255 shards. |
| RelayShards.IndicesLayout | crates/waku-enr/src/lib.rs:79-90 | The bytes are cluster, count and shards, each number with its high byte first. |
| RelayShards.IndicesRoundTrip | crates/waku-enr/src/lib.rs:79-110 | Every descriptor with at most 255 shards decodes back from its indices list. |
| RelayShards.IndicesRoundTripBack | crates/waku-enr/src/lib.rs:92-110 | Every accepted byte string is the indices list of what it decodes to. |
| RelayShards.ToBitVector | crates/waku-enr/src/lib.rs:114-126 | 130 bytes with exactly the descriptor's shards set, or the first shard of 1024 or more as an error. |
| RelayShards.BitVectorLayout | crates/waku-enr/src/lib.rs:114-126 | 130 bytes: the cluster with its high byte first, then shard idx at bit idx % 8, from the most significant, of byte idx / 8. |
| RelayShards.FromBitVector | crates/waku-enr/src/lib.rs:128-143 | The set bits in increasing order, or a length error. |
| RelayShards.BitVectorRoundTrip | crates/waku-enr/src/lib.rs:114-143 | The bit vector of any descriptor decodes to that descriptor sorted and without duplicates, so to the descriptor itself if and only if it is so already. |
| RelayShards.BitVectorRoundTripBack | crates/waku-enr/src/lib.rs:114-143 | Every 130-byte string is the one bit vector of what it decodes to. |
| Topics.ContentTopicRoundTrip | crates/waku-core/src/content_topic.rs:20-46 | Parsing a printed topic gives it back if and only if its four segments are non-empty and free of slashes. |
| Topics.ContentTopicRoundTripBack | crates/waku-core/src/content_topic.rs:20-46 | Printing what was parsed gives back the accepted string. |
| Topics.ShardIdRoundTrip | crates/waku-core/src/shard.rs:33-53 | Parsing inverts printing for every pair of 16-bit numbers. |
| Topics.ShardIdRoundTripBack | crates/waku-core/src/shard.rs:38-53 | Printing inverts parsing if and only if both numbers are written without plus sign and leading zeros. |
| Topics.ShardIdAccepts | crates/waku-core/src/shard.rs:38-53 | A string is accepted as a shard if and only if it is "/waku/2/rs/", a 16-bit number, a slash and a 16-bit number. |
| Topics.PlusIsIgnored | crates/waku-core/src/shard.rs:43-51 | One plus sign in front of a number is ignored. |
| Topics.ZeroIsIgnored | crates/waku-core/src/shard.rs:43-51 | So are leading zeros. |
| Validation.TimestampWindow | crates/waku-node/src/runtime.rs:988-997 | Under the default policy, for every 64-bit timestamp and clock, a message is accepted if and only if it is less than 21 s away from local time, measured around the wrap; one without a timestamp is accepted. |
| Validation.PlainDistanceDecides | crates/waku-node/src/runtime.rs:988-997 | The plain distance decides for every timestamp if and only if no 64-bit time on the far side of the wrap is less than 21 s from the clock. |
| Validation.ValidateExactly | crates/waku-relay/src/validation.rs:80-116 | Under any policy, a message is ignored if and only if it is timely, RLN is enforced, it has no proof and the shard is saturated; it is accepted if and only if it is timely and, with RLN enforced, has no proof on an unsaturated shard or a valid, recent one that is no double signal. |

## Left out

- Groth16, Poseidon, SHA-256, Keccak, secp256k1, base32/base64 and ENR parsing: foreign code, taken as parameters with the assumptions named above.
- RateLimit.RateLimiter.Allow: tokens and times are real numbers, so rounding and infinities of doubles are not captured.
- Store.SqliteStore.Query: database failures and corrupt rows, hence the 500 response of `serve`; rows are in memory and their hashes have 32 bytes by type.
- StoreUpkeep.PagingUnderPuts: assumes fewer than 2^63 rows, which is what a vector of rows can hold.
- Framing.ByteStream.ReadExact: a stream that delivers bytes over time; here the bytes to come are known.
- EnrTree.Resolve: decoding of the `enrtree://` URL and the fields of the root record are parameters, and the resolver answers the same name the same way, which a walk cannot notice because it asks for each name once.
- FilterRegistry.PushFilterMatches: the registry is visited in an arbitrary order, and sending to the swarm is not modelled.
- IpGuard.CounterBalance: connections without an IP address, which leave the counter alone, appear only in the methods.
- RelayShards.New: the in-place sort and deduplication are library calls and are modelled by their result.
- SQL text, `get`, `exists`, `count` and the table layout: the table is modelled by its meaning, and these three only look it up.
- `deterministic_hash` and `autoshard`: concatenation into a foreign hash.
- The varint copies in waku-metadata, waku-filter, waku-lightpush and waku-peer-exchange: the same loops with other frame limits.
- libp2p swarm, gossipsub, discv5, REST handlers, metrics, configuration, peer book and pending-reply maps: plumbing or easy facts.
