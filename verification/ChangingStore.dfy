/**
  What a client sees that follows `next_cursor` while messages are stored and
  expired between pages, also when the row it stopped at is gone or has come back
  at another place in the order.
 */
module ChangingStore {
  import opened Common
  import opened StoreOrder
  import opened KeysetWalk
  import opened Store
  import opened StorePaging

  // ----- Resuming from a cursor

  /** A cursor whose row has been deleted starts the walk over. */
  lemma LostCursorRestarts(t: Table, q: StoreQuery, h: Hash)
    requires h !in t
    ensures PageOf(t, q.(cursor := Some(h))) == PageOf(t, q.(cursor := None))
  {
    var lost, none := q.(cursor := Some(h)), q.(cursor := None);
    assert forall h' :: h' in t ==> (Filter(lost, h', t[h']) <==> Filter(none, h', t[h']));
    assert Chosen(t, lost) == Chosen(t, none);
    assert Fetched(t, lost) == Fetched(t, none);
  }

  /** k is past a but not past b. */
  predicate Between(forward: bool, a: Key, b: Key, k: Key) {
    Before(forward, a, k) && !Before(forward, b, k)
  }

  /** Cursor c was handed out at `place`. If its row is still stored, nothing that
      matches lies between there and where the row is now; if it is gone, everything
      that matches is past `place`. */
  ghost predicate Resumable(t: Table, q: StoreQuery, c: Hash, place: Key) {
    forall k :: k in Eligible(t, q) ==>
      if c in t then !Between(q.forward, place, KeyOf(t, c), k) && !Between(q.forward, KeyOf(t, c), place, k)
      else Before(q.forward, place, k)
  }

  /** The query with cursor c selects the matching rows past the place at which c was
      handed out, wherever its row is now, exactly when it is resumable. */
  lemma ResumesExactly(t: Table, q: StoreQuery, c: Hash, place: Key)
    ensures (forall k :: k in Ordered(t, q.(cursor := Some(c)))
                         <==> k in Eligible(t, q) && Before(q.forward, place, k))
            <==> Resumable(t, q, c, place)
  {
    var resumed := q.(cursor := Some(c));
    EligibleIgnoresCursor(t, q, Some(c));
    forall k ensures k in Ordered(t, resumed)
                     <==> k in Eligible(t, q) && (c in t ==> Before(q.forward, KeyOf(t, c), k))
    {
      SelectedExactly(t, resumed, k);
    }
  }

  // ----- Walks

  /** A page request: the table at that moment and the cursor sent. */
  datatype Visit = Visit(t: Table, cursor: Option<Hash>)

  function At(q: StoreQuery, v: Visit): StoreQuery {
    q.(cursor := v.cursor)
  }

  ghost predicate Resumes(q: StoreQuery, v: Visit, v': Visit) {
    v'.cursor.Some? && v'.cursor == PageOf(v.t, At(q, v)).nextCursor
  }

  /** The client sends back each continuation it gets, until there is none. The
      tables in between are arbitrary. */
  ghost predicate IsWalk(q: StoreQuery, vs: seq<Visit>) {
    && vs != []
    && (forall i :: 0 < i < |vs| ==> Resumes(q, vs[i - 1], vs[i]))
    && PageOf(vs[|vs| - 1].t, At(q, vs[|vs| - 1])).nextCursor == None
  }

  ghost predicate Fit(vs: seq<Visit>) {
    forall i :: 0 <= i < |vs| ==> |vs[i].t| < TWO_63
  }

  ghost function Shown(q: StoreQuery, vs: seq<Visit>): seq<StoredMessage> {
    if vs == [] then [] else PageOf(vs[0].t, At(q, vs[0])).messages + Shown(q, vs[1..])
  }

  /** How often row h is shown. */
  ghost function Times(shown: seq<StoredMessage>, h: Hash): nat {
    if shown == [] then 0 else (if shown[0].hash == h then 1 else 0) + Times(shown[1..], h)
  }

  lemma {:induction false} ShownIsCounted(shown: seq<StoredMessage>, h: Hash)
    ensures Times(shown, h) > 0 <==> exists m :: m in shown && m.hash == h
  {
    if shown != [] {
      ShownIsCounted(shown[1..], h);
      assert shown == [shown[0]] + shown[1..];
    }
  }

  /** Row h matches and is at place k of the order in every table. */
  ghost predicate StaysPut(q: StoreQuery, vs: seq<Visit>, h: Hash, k: Key) {
    forall i :: 0 <= i < |vs| ==> h in vs[i].t && Filter(q, h, vs[i].t[h]) && KeyOf(vs[i].t, h) == k
  }

  /** Row h is at place k whenever it is there. */
  ghost predicate NeverMoves(vs: seq<Visit>, h: Hash, k: Key) {
    forall i :: 0 <= i < |vs| && h in vs[i].t ==> KeyOf(vs[i].t, h) == k
  }

  predicate PastStart(q: StoreQuery, v: Visit, k: Key) {
    PastCursor(q.forward, CursorKey(v.t, v.cursor), k)
  }

  // ----- What happens to a place between two pages

  /** Place k was still to come when the cursor was handed out, but the cursor's row
      has moved to it or past it. */
  predicate SkippedAt(q: StoreQuery, v: Visit, v': Visit, k: Key) {
    && v'.cursor.Some? && v'.cursor.value in v.t
    && Before(q.forward, KeyOf(v.t, v'.cursor.value), k)
    && !PastCursor(q.forward, CursorKey(v'.t, v'.cursor), k)
  }

  /** Place k was behind when the cursor was handed out, but the cursor's row is gone
      or has moved to before it. */
  predicate RevisitedAt(q: StoreQuery, v: Visit, v': Visit, k: Key) {
    && v'.cursor.Some? && v'.cursor.value in v.t
    && !Before(q.forward, KeyOf(v.t, v'.cursor.value), k)
    && PastCursor(q.forward, CursorKey(v'.t, v'.cursor), k)
  }

  function SkipsOf(q: StoreQuery, vs: seq<Visit>, k: Key): nat {
    if |vs| < 2 then 0 else (if SkippedAt(q, vs[0], vs[1], k) then 1 else 0) + SkipsOf(q, vs[1..], k)
  }

  function RevisitsOf(q: StoreQuery, vs: seq<Visit>, k: Key): nat {
    if |vs| < 2 then 0 else (if RevisitedAt(q, vs[0], vs[1], k) then 1 else 0) + RevisitsOf(q, vs[1..], k)
  }

  ghost predicate NeverSkipped(q: StoreQuery, vs: seq<Visit>, k: Key) {
    forall i :: 0 < i < |vs| ==> !SkippedAt(q, vs[i - 1], vs[i], k)
  }

  ghost predicate NeverRevisited(q: StoreQuery, vs: seq<Visit>, k: Key) {
    forall i :: 0 < i < |vs| ==> !RevisitedAt(q, vs[i - 1], vs[i], k)
  }

  lemma {:induction false} NoSkips(q: StoreQuery, vs: seq<Visit>, k: Key)
    ensures SkipsOf(q, vs, k) == 0 <==> NeverSkipped(q, vs, k)
  {
    if |vs| >= 2 {
      NoSkips(q, vs[1..], k);
      if NeverSkipped(q, vs, k) {
        forall i | 0 < i < |vs[1..]| ensures !SkippedAt(q, vs[1..][i - 1], vs[1..][i], k) {
          assert !SkippedAt(q, vs[(i + 1) - 1], vs[i + 1], k);
        }
      }
      if NeverSkipped(q, vs[1..], k) && !SkippedAt(q, vs[0], vs[1], k) {
        forall i | 0 < i < |vs| ensures !SkippedAt(q, vs[i - 1], vs[i], k) {
          if i > 1 { assert !SkippedAt(q, vs[1..][(i - 1) - 1], vs[1..][i - 1], k); }
        }
      }
    }
  }

  lemma {:induction false} NoRevisits(q: StoreQuery, vs: seq<Visit>, k: Key)
    ensures RevisitsOf(q, vs, k) == 0 <==> NeverRevisited(q, vs, k)
  {
    if |vs| >= 2 {
      NoRevisits(q, vs[1..], k);
      if NeverRevisited(q, vs, k) {
        forall i | 0 < i < |vs[1..]| ensures !RevisitedAt(q, vs[1..][i - 1], vs[1..][i], k) {
          assert !RevisitedAt(q, vs[(i + 1) - 1], vs[i + 1], k);
        }
      }
      if NeverRevisited(q, vs[1..], k) && !RevisitedAt(q, vs[0], vs[1], k) {
        forall i | 0 < i < |vs| ensures !RevisitedAt(q, vs[i - 1], vs[i], k) {
          if i > 1 { assert !RevisitedAt(q, vs[1..][(i - 1) - 1], vs[1..][i - 1], k); }
        }
      }
    }
  }

  // ----- Walks are slices

  ghost function MomentOf(q: StoreQuery, v: Visit): Moment {
    Moment(Eligible(v.t, q), CursorKey(v.t, v.cursor), PageKeys(v.t, At(q, v)))
  }

  ghost function Moments(q: StoreQuery, vs: seq<Visit>): seq<Moment> {
    seq(|vs|, i requires 0 <= i < |vs| => MomentOf(q, vs[i]))
  }

  lemma MomentsTail(q: StoreQuery, vs: seq<Visit>)
    requires vs != []
    ensures Moments(q, vs)[1..] == Moments(q, vs[1..])
  {
  }

  lemma VisitIsSlice(q: StoreQuery, v: Visit)
    requires |v.t| < TWO_63 && q.pageSize != MAX_PAGE_SIZE
    ensures Slice(q.forward, MomentOf(q, v), PageOf(v.t, At(q, v)).nextCursor == None)
  {
    var t, qv := v.t, At(q, v);
    PageShape(t, qv);
    OrderedIsSelected(t, qv);
    EligibleIgnoresCursor(t, q, v.cursor);
    forall k ensures k in Ordered(t, qv)
                     <==> k in Eligible(t, q) && PastCursor(q.forward, CursorKey(t, v.cursor), k)
    {
      SelectedExactly(t, qv, k);
    }
    PrefixIsSlice(q.forward, MomentOf(q, v), Ordered(t, qv), PageOf(t, qv).nextCursor == None);
  }

  lemma PageEnd(q: StoreQuery, vs: seq<Visit>, i: nat)
    requires IsWalk(q, vs) && i < |vs|
    ensures PageOf(vs[i].t, At(q, vs[i])).nextCursor == None <==> i == |vs| - 1
  {
    assert i < |vs| - 1 ==> Resumes(q, vs[i], vs[i + 1]);
  }

  lemma WalkIsSlices(q: StoreQuery, vs: seq<Visit>)
    requires IsWalk(q, vs) && Fit(vs) && q.pageSize != MAX_PAGE_SIZE
    ensures Slices(q.forward, Moments(q, vs))
  {
    var ms := Moments(q, vs);
    forall i | 0 <= i < |vs| ensures Slice(q.forward, ms[i], i == |ms| - 1) {
      PageEnd(q, vs, i);
      VisitIsSlice(q, vs[i]);
    }
  }

  /** The cursor sent is the last key of the page before. */
  ghost predicate HandsOver(q: StoreQuery, v: Visit, v': Visit) {
    && v'.cursor.Some?
    && v'.cursor.value in v.t
    && MomentOf(q, v).keys != []
    && Last(MomentOf(q, v)) == KeyOf(v.t, v'.cursor.value)
  }

  lemma ResumingHandsOver(q: StoreQuery, v: Visit, v': Visit)
    requires |v.t| < TWO_63 && Resumes(q, v, v')
    ensures HandsOver(q, v, v')
  {
    var keys := PageKeys(v.t, At(q, v));
    PageShape(v.t, At(q, v));
    assert keys[|keys| - 1] in Ordered(v.t, At(q, v));
    SelectedExactly(v.t, At(q, v), keys[|keys| - 1]);
  }

  /** A walk, forgetting how pages are computed. */
  ghost predicate Chained(q: StoreQuery, vs: seq<Visit>) {
    forall i :: 0 < i < |vs| ==> HandsOver(q, vs[i - 1], vs[i])
  }

  lemma WalkIsChained(q: StoreQuery, vs: seq<Visit>)
    requires IsWalk(q, vs) && Fit(vs)
    ensures Chained(q, vs)
  {
    forall i | 0 < i < |vs| ensures HandsOver(q, vs[i - 1], vs[i]) {
      var v, v' := vs[i - 1], vs[i];
      assert Resumes(q, v, v') && |v.t| < TWO_63;
      ResumingHandsOver(q, v, v');
    }
  }

  lemma ChainedTail(q: StoreQuery, vs: seq<Visit>)
    requires Chained(q, vs) && |vs| >= 2
    ensures HandsOver(q, vs[0], vs[1]) && Chained(q, vs[1..])
  {
    assert HandsOver(q, vs[1 - 1], vs[1]);
    forall i | 0 < i < |vs[1..]| ensures HandsOver(q, vs[1..][i - 1], vs[1..][i]) {
      assert HandsOver(q, vs[(i + 1) - 1], vs[i + 1]);
    }
  }

  lemma OneHandover(q: StoreQuery, v: Visit, v': Visit, k: Key)
    requires HandsOver(q, v, v')
    ensures Skipped(q.forward, MomentOf(q, v), MomentOf(q, v'), k) <==> SkippedAt(q, v, v', k)
    ensures Revisited(q.forward, MomentOf(q, v), MomentOf(q, v'), k) <==> RevisitedAt(q, v, v', k)
  {
  }

  lemma {:induction false} HandoversCount(q: StoreQuery, vs: seq<Visit>, k: Key)
    requires Chained(q, vs)
    ensures Skips(q.forward, Moments(q, vs), k) == SkipsOf(q, vs, k)
    ensures Revisits(q.forward, Moments(q, vs), k) == RevisitsOf(q, vs, k)
  {
    if |vs| >= 2 {
      ChainedTail(q, vs);
      OneHandover(q, vs[0], vs[1], k);
      MomentsTail(q, vs);
      HandoversCount(q, vs[1..], k);
    }
  }

  // ----- What is shown

  /** The places of the rows shown, each when it was read. */
  ghost function ShownKeys(q: StoreQuery, vs: seq<Visit>): seq<Key> {
    Flatten(Moments(q, vs))
  }

  /** The message is that of the row at place k in one of the tables, which matches. */
  ghost predicate ReadFrom(q: StoreQuery, v: Visit, m: StoredMessage, k: Key) {
    && k.hash in v.t
    && k == KeyOf(v.t, k.hash)
    && Filter(q, k.hash, v.t[k.hash])
    && m == Stored(v.t, k.hash, q.includeData)
  }

  ghost predicate ReadFromSome(q: StoreQuery, vs: seq<Visit>, m: StoredMessage, k: Key) {
    exists v :: v in vs && ReadFrom(q, v, m, k)
  }

  ghost predicate AllRead(q: StoreQuery, vs: seq<Visit>, ms: seq<StoredMessage>, keys: seq<Key>) {
    |ms| == |keys| && forall i :: 0 <= i < |ms| ==> ReadFromSome(q, vs, ms[i], keys[i])
  }

  lemma JoinReads(
      q: StoreQuery, v: Visit, rest: seq<Visit>,
      ms: seq<StoredMessage>, keys: seq<Key>, ms': seq<StoredMessage>, keys': seq<Key>)
    requires AllRead(q, [v], ms, keys) && AllRead(q, rest, ms', keys')
    ensures AllRead(q, [v] + rest, ms + ms', keys + keys')
  {
    forall i | 0 <= i < |ms + ms'| ensures ReadFromSome(q, [v] + rest, (ms + ms')[i], (keys + keys')[i]) {
      if i < |ms| {
        ReadFromMore(q, [v], [v] + rest, ms[i], keys[i]);
      } else {
        ReadFromMore(q, rest, [v] + rest, ms'[i - |ms|], keys'[i - |ms|]);
      }
    }
  }

  lemma ReadFromMore(q: StoreQuery, some: seq<Visit>, all: seq<Visit>, m: StoredMessage, k: Key)
    requires ReadFromSome(q, some, m, k) && forall v :: v in some ==> v in all
    ensures ReadFromSome(q, all, m, k)
  {
  }

  lemma PageReads(q: StoreQuery, v: Visit)
    requires |v.t| < TWO_63
    ensures AllRead(q, [v], PageOf(v.t, At(q, v)).messages, MomentOf(q, v).keys)
  {
    PageShape(v.t, At(q, v));
    var ms, keys := PageOf(v.t, At(q, v)).messages, MomentOf(q, v).keys;
    assert v in [v];
    forall i | 0 <= i < |keys| ensures ReadFrom(q, v, ms[i], keys[i]) {
      assert keys[i] in Ordered(v.t, At(q, v));
      SelectedExactly(v.t, At(q, v), keys[i]);
    }
  }

  /** Whatever changes between pages, each message shown is the content that a
      matching row had in one of the tables. */
  lemma {:induction false} ShownRowsMatch(q: StoreQuery, vs: seq<Visit>)
    requires Fit(vs)
    ensures AllRead(q, vs, Shown(q, vs), ShownKeys(q, vs))
  {
    if vs != [] {
      PageReads(q, vs[0]);
      ShownRowsMatch(q, vs[1..]);
      MomentsTail(q, vs);
      JoinReads(q, vs[0], vs[1..], PageOf(vs[0].t, At(q, vs[0])).messages, MomentOf(q, vs[0]).keys,
                Shown(q, vs[1..]), ShownKeys(q, vs[1..]));
      assert vs == [vs[0]] + vs[1..];
    }
  }

  lemma ShownWasRead(q: StoreQuery, vs: seq<Visit>, m: StoredMessage) returns (i: nat)
    requires Fit(vs) && m in Shown(q, vs)
    ensures i < |vs| && m.hash in vs[i].t
    ensures Filter(q, m.hash, vs[i].t[m.hash]) && m == Stored(vs[i].t, m.hash, q.includeData)
  {
    ShownRowsMatch(q, vs);
    var n :| 0 <= n < |Shown(q, vs)| && Shown(q, vs)[n] == m;
    assert ReadFromSome(q, vs, m, ShownKeys(q, vs)[n]);
    var v :| v in vs && ReadFrom(q, v, m, ShownKeys(q, vs)[n]);
    i :| 0 <= i < |vs| && vs[i] == v;
  }

  /** Each message shown comes with its row's place. */
  ghost predicate Placed(shown: seq<StoredMessage>, keys: seq<Key>, h: Hash, k: Key) {
    && |shown| == |keys|
    && (forall i :: 0 <= i < |shown| ==> shown[i].hash == keys[i].hash)
    && (forall i :: 0 <= i < |keys| && keys[i].hash == h ==> keys[i] == k)
  }

  lemma {:induction false} TimesIsCount(shown: seq<StoredMessage>, keys: seq<Key>, h: Hash, k: Key)
    requires Placed(shown, keys, h, k) && k.hash == h
    ensures Times(shown, h) == multiset(keys)[k]
  {
    if shown != [] {
      TimesIsCount(shown[1..], keys[1..], h, k);
      assert keys == [keys[0]] + keys[1..];
    }
  }

  lemma ShownIsPlaced(q: StoreQuery, vs: seq<Visit>, h: Hash, k: Key)
    requires Fit(vs) && NeverMoves(vs, h, k)
    ensures Placed(Shown(q, vs), ShownKeys(q, vs), h, k)
  {
    var shown, keys := Shown(q, vs), ShownKeys(q, vs);
    ShownRowsMatch(q, vs);
    forall i | 0 <= i < |shown|
      ensures shown[i].hash == keys[i].hash && (keys[i].hash == h ==> keys[i] == k)
    {
      assert ReadFromSome(q, vs, shown[i], keys[i]);
      var v :| v in vs && ReadFrom(q, v, shown[i], keys[i]);
    }
  }

  // ----- How often a row is shown

  /** Whatever is stored and expired between pages: a matching row that stays put is
      shown once if it is past the start, once more for every time it is revisited,
      and once less for every time it is skipped. So it is shown exactly once if and
      only if it is skipped as often as revisited. */
  lemma PagingExactlyOnce(q: StoreQuery, vs: seq<Visit>, h: Hash, k: Key)
    requires IsWalk(q, vs) && Fit(vs) && q.pageSize != MAX_PAGE_SIZE && StaysPut(q, vs, h, k)
    ensures Times(Shown(q, vs), h) + SkipsOf(q, vs, k)
            == (if PastStart(q, vs[0], k) then 1 else 0) + RevisitsOf(q, vs, k)
    ensures PastStart(q, vs[0], k) ==> (Times(Shown(q, vs), h) == 1 <==> SkipsOf(q, vs, k) == RevisitsOf(q, vs, k))
  {
    var ms := Moments(q, vs);
    assert KeyOf(vs[0].t, h) == k;
    forall i | 0 <= i < |ms| ensures k in ms[i].present {
      assert h in vs[i].t && Filter(q, h, vs[i].t[h]) && KeyOf(vs[i].t, h) == k;
    }
    WalkIsSlices(q, vs);
    WalkIsChained(q, vs);
    ShownTimes(q.forward, ms, k);
    HandoversCount(q, vs, k);
    ShownIsPlaced(q, vs, h, k);
    TimesIsCount(Shown(q, vs), ShownKeys(q, vs), h, k);
  }

  /** A cursor's row that is still there is where it was when the cursor was handed
      out. */
  ghost predicate CursorsStayPut(vs: seq<Visit>) {
    forall i :: 0 < i < |vs| && vs[i].cursor.Some? && vs[i].cursor.value in vs[i].t ==>
      vs[i].cursor.value in vs[i - 1].t ==>
        KeyOf(vs[i].t, vs[i].cursor.value) == KeyOf(vs[i - 1].t, vs[i].cursor.value)
  }

  /** Place k lies past every cursor that was sent when its row was gone. */
  ghost predicate PastLostCursors(q: StoreQuery, vs: seq<Visit>, k: Key) {
    forall i :: 0 < i < |vs| && vs[i].cursor.Some? && vs[i].cursor.value !in vs[i].t ==>
      vs[i].cursor.value in vs[i - 1].t ==>
        Before(q.forward, KeyOf(vs[i - 1].t, vs[i].cursor.value), k)
  }

  /** As long as no cursor's row comes back elsewhere, a matching row that stays put is
      never missed, and is shown exactly once if and only if it lies past every cursor
      whose row was gone. */
  lemma PagingWithSteadyCursors(q: StoreQuery, vs: seq<Visit>, h: Hash, k: Key)
    requires IsWalk(q, vs) && Fit(vs) && q.pageSize != MAX_PAGE_SIZE
    requires StaysPut(q, vs, h, k) && PastStart(q, vs[0], k) && CursorsStayPut(vs)
    ensures Times(Shown(q, vs), h) >= 1
    ensures Times(Shown(q, vs), h) == 1 <==> PastLostCursors(q, vs, k)
  {
    PagingExactlyOnce(q, vs, h, k);
    WalkIsChained(q, vs);
    SteadyCursorsSkipNothing(q, vs, k);
    NoSkips(q, vs, k);
    NoRevisits(q, vs, k);
    RevisitedByLostCursors(q, vs, k);
  }

  lemma SteadyCursorsSkipNothing(q: StoreQuery, vs: seq<Visit>, k: Key)
    requires CursorsStayPut(vs)
    ensures NeverSkipped(q, vs, k)
  {
    forall i | 0 < i < |vs| ensures !SkippedAt(q, vs[i - 1], vs[i], k) {
      var c := vs[i].cursor;
    }
  }

  lemma RevisitedByLostCursors(q: StoreQuery, vs: seq<Visit>, k: Key)
    requires Chained(q, vs) && CursorsStayPut(vs)
    ensures NeverRevisited(q, vs, k) <==> PastLostCursors(q, vs, k)
  {
    if NeverRevisited(q, vs, k) {
      forall i | 0 < i < |vs| && vs[i].cursor.Some? && vs[i].cursor.value !in vs[i].t
                 && vs[i].cursor.value in vs[i - 1].t
        ensures Before(q.forward, KeyOf(vs[i - 1].t, vs[i].cursor.value), k)
      {
        assert !RevisitedAt(q, vs[i - 1], vs[i], k);
      }
    }
    if PastLostCursors(q, vs, k) {
      forall i | 0 < i < |vs| ensures !RevisitedAt(q, vs[i - 1], vs[i], k) {
        var c := vs[i].cursor;
      }
    }
  }

  // ----- The order in which rows are shown

  /** Nothing the next page can select lies at or before the place at which its cursor
      was handed out. */
  ghost predicate NothingBehind(q: StoreQuery, v: Visit, v': Visit) {
    v'.cursor.Some? && v'.cursor.value in v.t ==>
      forall k :: k in Eligible(v'.t, q) && PastCursor(q.forward, CursorKey(v'.t, v'.cursor), k) ==>
        Before(q.forward, KeyOf(v.t, v'.cursor.value), k)
  }

  ghost predicate NeverBehind(q: StoreQuery, vs: seq<Visit>) {
    forall i :: 0 < i < |vs| ==> NothingBehind(q, vs[i - 1], vs[i])
  }

  lemma SafeIsNothingBehind(q: StoreQuery, v: Visit, v': Visit)
    requires HandsOver(q, v, v')
    ensures SafeLink(q.forward, MomentOf(q, v), MomentOf(q, v')) <==> NothingBehind(q, v, v')
  {
  }

  lemma SafeIsNeverBehind(q: StoreQuery, vs: seq<Visit>)
    requires Chained(q, vs)
    ensures SafeLinks(q.forward, Moments(q, vs)) <==> NeverBehind(q, vs)
  {
    var ms := Moments(q, vs);
    if SafeLinks(q.forward, ms) {
      forall i | 0 < i < |vs| ensures NothingBehind(q, vs[i - 1], vs[i]) {
        assert HandsOver(q, vs[i - 1], vs[i]) && SafeLink(q.forward, ms[i - 1], ms[i]);
        SafeIsNothingBehind(q, vs[i - 1], vs[i]);
      }
    }
    if NeverBehind(q, vs) {
      forall i | 0 < i < |ms| ensures SafeLink(q.forward, ms[i - 1], ms[i]) {
        assert HandsOver(q, vs[i - 1], vs[i]) && NothingBehind(q, vs[i - 1], vs[i]);
        SafeIsNothingBehind(q, vs[i - 1], vs[i]);
      }
    }
  }

  /** Whatever is stored and expired between pages: the places of the rows shown come
      strictly in walking order exactly when no page can select anything behind its
      cursor. A row that never moves is then shown at most once. */
  lemma PagingInOrder(q: StoreQuery, vs: seq<Visit>, h: Hash, k: Key)
    requires IsWalk(q, vs) && Fit(vs) && q.pageSize != MAX_PAGE_SIZE
    ensures Ascending(q.forward, ShownKeys(q, vs)) <==> NeverBehind(q, vs)
    ensures NeverBehind(q, vs) && NeverMoves(vs, h, k) && k.hash == h ==> Times(Shown(q, vs), h) <= 1
  {
    WalkIsSlices(q, vs);
    WalkIsChained(q, vs);
    AscendsExactly(q.forward, Moments(q, vs));
    SafeIsNeverBehind(q, vs);
    if NeverBehind(q, vs) && NeverMoves(vs, h, k) && k.hash == h {
      ShownIsPlaced(q, vs, h, k);
      TimesIsCount(Shown(q, vs), ShownKeys(q, vs), h, k);
      AscendingHasOnce(q.forward, ShownKeys(q, vs), k);
    }
  }

  // ----- Walks whose every cursor is resumable

  ghost predicate AlwaysResumable(q: StoreQuery, vs: seq<Visit>) {
    forall i :: 0 < i < |vs| && vs[i].cursor.Some? && vs[i].cursor.value in vs[i - 1].t ==>
      Resumable(vs[i].t, q, vs[i].cursor.value, KeyOf(vs[i - 1].t, vs[i].cursor.value))
  }

  lemma ResumablePlaces(q: StoreQuery, v: Visit, v': Visit, k: Key)
    requires v'.cursor.Some? && v'.cursor.value in v.t
    requires Resumable(v'.t, q, v'.cursor.value, KeyOf(v.t, v'.cursor.value))
    ensures NothingBehind(q, v, v')
    ensures k in Eligible(v'.t, q) ==> !SkippedAt(q, v, v', k) && !RevisitedAt(q, v, v', k)
  {
  }

  /** When every cursor is resumable, the places shown are strictly in walking order
      and a matching row that stays put is shown exactly once. */
  lemma ResumablePaging(q: StoreQuery, vs: seq<Visit>, h: Hash, k: Key)
    requires IsWalk(q, vs) && Fit(vs) && q.pageSize != MAX_PAGE_SIZE && AlwaysResumable(q, vs)
    ensures Ascending(q.forward, ShownKeys(q, vs))
    ensures NeverMoves(vs, h, k) && k.hash == h ==> Times(Shown(q, vs), h) <= 1
    ensures StaysPut(q, vs, h, k) && PastStart(q, vs[0], k) ==> Times(Shown(q, vs), h) == 1
  {
    WalkIsChained(q, vs);
    forall i | 0 < i < |vs|
      ensures NothingBehind(q, vs[i - 1], vs[i])
      ensures StaysPut(q, vs, h, k) ==> !SkippedAt(q, vs[i - 1], vs[i], k) && !RevisitedAt(q, vs[i - 1], vs[i], k)
    {
      assert HandsOver(q, vs[i - 1], vs[i]);
      if StaysPut(q, vs, h, k) { assert KeyOf(vs[i].t, h) in Eligible(vs[i].t, q); }
      ResumablePlaces(q, vs[i - 1], vs[i], k);
    }
    PagingInOrder(q, vs, h, k);
    if StaysPut(q, vs, h, k) {
      NoSkips(q, vs, k);
      NoRevisits(q, vs, k);
      PagingExactlyOnce(q, vs, h, k);
    }
  }
}
