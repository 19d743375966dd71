/**
  One page of results, and what a client sees that follows `next_cursor` page by
  page on a store that does not change.
 */
module StorePaging {
  import opened Common
  import opened StoreOrder
  import opened KeysetWalk
  import opened Store

  const MAX_PAGE_SIZE: int := TWO_64 - 1

  // ----- The shape of one page

  /** How many of n selected rows one page shows. */
  function Taken(n: nat, pageSize: U64): (taken: nat)
    ensures taken <= n
  {
    if pageSize == MAX_PAGE_SIZE then 0
    else if pageSize >= TWO_63 then n
    else Min(n, if pageSize < 1 then 1 else pageSize)
  }

  /** Whether a page that shows anything names a continuation. */
  predicate Continues(n: nat, pageSize: U64) {
    pageSize >= TWO_63 || n > (if pageSize < 1 then 1 else pageSize)
  }

  function PageKeys(t: Table, q: StoreQuery): (keys: seq<Key>)
    ensures Present(t, keys) && keys <= Ordered(t, q)
  {
    Ordered(t, q)[..Taken(|Ordered(t, q)|, q.pageSize)]
  }

  lemma SelectedFit(t: Table, q: StoreQuery)
    ensures |Ordered(t, q)| <= |t|
  {
    OrderedIsSelected(t, q);
    KeysAreAsMany(t, Chosen(t, q));
    assert |t.Keys| == |Chosen(t, q)| + |t.Keys - Chosen(t, q)|;
  }

  lemma CastArithmetic(n: nat, q: StoreQuery)
    requires n < TWO_63
    ensures var limit := LimitOf(q);
      var fetched := if 0 <= AddOneI64(limit) < n then AddOneI64(limit) else n;
      Min(fetched, AsUsize(limit)) == Taken(n, q.pageSize) && (fetched > limit <==> Continues(n, q.pageSize))
  {
  }

  /** The casts and the LIMIT arithmetic come down to a prefix of the ordered rows. */
  lemma PageShape(t: Table, q: StoreQuery)
    requires |t| < TWO_63
    ensures var page, keys := PageOf(t, q), PageKeys(t, q);
      && page.messages == StoredAll(t, keys, q.includeData)
      && page.nextCursor == (if Continues(|Ordered(t, q)|, q.pageSize) && keys != []
                             then Some(keys[|keys| - 1].hash) else None)
  {
    SelectedFit(t, q);
    CastArithmetic(|Ordered(t, q)|, q);
    var fetched := Fetched(t, q);
    assert fetched[..Taken(|Ordered(t, q)|, q.pageSize)] == PageKeys(t, q);
  }

  // ----- A fixed store

  /** The keys of the rows that pass the filters, wherever the cursor stands. */
  function Eligible(t: Table, q: StoreQuery): set<Key> {
    KeysOf(t, set h | h in t && Filter(q, h, t[h]))
  }

  lemma EligibleIgnoresCursor(t: Table, q: StoreQuery, c: Option<Hash>)
    ensures Eligible(t, q.(cursor := c)) == Eligible(t, q)
  {
    assert forall h :: h in t ==> (Filter(q, h, t[h]) <==> Filter(q.(cursor := c), h, t[h]));
  }

  lemma SelectedExactly(t: Table, q: StoreQuery, k: Key)
    ensures k in Ordered(t, q) <==> k in Eligible(t, q) && PastCursor(q.forward, CursorKey(t, q.cursor), k)
    ensures k in Eligible(t, q) ==> k.hash in t && k == KeyOf(t, k.hash)
  {
    OrderedIsSelected(t, q);
  }

  /** The query that resumes after the n-th selected row selects the rest. */
  lemma NextSelects(t: Table, q: StoreQuery, n: nat)
    requires 0 < n <= |Ordered(t, q)|
    ensures Ordered(t, q.(cursor := Some(Ordered(t, q)[n - 1].hash))) == Ordered(t, q)[n..]
  {
    var all := Ordered(t, q);
    var last := all[n - 1];
    var q' := q.(cursor := Some(last.hash));
    OrderedIsSelected(t, q);
    OrderedIsSelected(t, q');
    SelectedExactly(t, q, last);
    EligibleIgnoresCursor(t, q, q'.cursor);
    forall k ensures k in Ordered(t, q') <==> k in all[n..] {
      SelectedExactly(t, q, k);
      SelectedExactly(t, q', k);
      SplitAt(q.forward, all, n, k);
      var c := CursorKey(t, q.cursor);
      if c.Some? && Before(q.forward, last, k) { Transitive(q.forward, c.value, last, k); }
    }
    AscendingIsUnique(q.forward, Ordered(t, q'), all[n..]);
  }

  /** Following the cursor on a store that does not change. */
  ghost function Follow(t: Table, q: StoreQuery): seq<Page>
    requires |t| < TWO_63
    decreases |Ordered(t, q)|
  {
    var page := PageOf(t, q);
    PageShape(t, q);
    if page.nextCursor == None then [page]
    else
      NextSelects(t, q, |PageKeys(t, q)|);
      [page] + Follow(t, q.(cursor := page.nextCursor))
  }

  ghost function AllMessages(pages: seq<Page>): seq<StoredMessage> {
    if pages == [] then [] else pages[0].messages + AllMessages(pages[1..])
  }

  lemma AllMessagesCons(page: Page, rest: seq<Page>)
    ensures AllMessages([page] + rest) == page.messages + AllMessages(rest)
    ensures AllMessages([page]) == page.messages
  {
    assert ([page] + rest)[1..] == rest && [page][1..] == [];
  }

  lemma StoredAllSplits(t: Table, keys: seq<Key>, n: nat, includeData: bool)
    requires Present(t, keys) && n <= |keys|
    ensures StoredAll(t, keys, includeData)
            == StoredAll(t, keys[..n], includeData) + StoredAll(t, keys[n..], includeData)
  {
  }

  /** The last page shows everything that is left. */
  lemma LastPage(t: Table, q: StoreQuery)
    requires |t| < TWO_63 && PageOf(t, q).nextCursor == None && q.pageSize != MAX_PAGE_SIZE
    ensures Taken(|Ordered(t, q)|, q.pageSize) == |Ordered(t, q)|
    ensures PageOf(t, q).messages == StoredAll(t, Ordered(t, q), q.includeData)
  {
    PageShape(t, q);
    assert PageKeys(t, q) == Ordered(t, q);
  }

  /** A page that continues leaves exactly the rows it did not show. */
  lemma LaterPage(t: Table, q: StoreQuery)
    requires |t| < TWO_63 && PageOf(t, q).nextCursor.Some?
    ensures var n, rest := Taken(|Ordered(t, q)|, q.pageSize), q.(cursor := PageOf(t, q).nextCursor);
      && 0 < n && Continues(|Ordered(t, q)|, q.pageSize)
      && Ordered(t, rest) == Ordered(t, q)[n..]
      && StoredAll(t, Ordered(t, q), q.includeData)
         == PageOf(t, q).messages + StoredAll(t, Ordered(t, rest), q.includeData)
  {
    PageShape(t, q);
    NextSelects(t, q, |PageKeys(t, q)|);
    StoredAllSplits(t, Ordered(t, q), |PageKeys(t, q)|, q.includeData);
  }

  lemma {:induction false} FollowShowsAll(t: Table, q: StoreQuery)
    requires |t| < TWO_63 && q.pageSize != MAX_PAGE_SIZE
    ensures AllMessages(Follow(t, q)) == StoredAll(t, Ordered(t, q), q.includeData)
    decreases |Ordered(t, q)|
  {
    var page := PageOf(t, q);
    if page.nextCursor == None {
      LastPage(t, q);
      AllMessagesCons(page, []);
    } else {
      LaterPage(t, q);
      var rest := q.(cursor := page.nextCursor);
      FollowShowsAll(t, rest);
      AllMessagesCons(page, Follow(t, rest));
    }
  }

  /** Concatenating the pages gives the matching rows in order, whatever the page
      size, except the largest one: then a page is empty and names no continuation. */
  lemma FixedStoreWalk(t: Table, q: StoreQuery)
    requires |t| < TWO_63
    ensures AllMessages(Follow(t, q)) == StoredAll(t, Ordered(t, q), q.includeData)
            <==> q.pageSize != MAX_PAGE_SIZE || Ordered(t, q) == []
  {
    PageShape(t, q);
    if q.pageSize != MAX_PAGE_SIZE {
      FollowShowsAll(t, q);
    } else {
      assert AllMessages(Follow(t, q)) == [];
    }
  }

  function Pages(n: nat, pageSize: U64): nat
    decreases n
  {
    var taken := Taken(n, pageSize);
    if Continues(n, pageSize) && taken > 0 then 1 + Pages(n - taken, pageSize) else 1
  }

  /** Whether a page is the last of n selected rows depends on n and the size alone. */
  lemma PageContinues(t: Table, q: StoreQuery)
    requires |t| < TWO_63
    ensures var n := |Ordered(t, q)|;
      PageOf(t, q).nextCursor.Some? <==> Continues(n, q.pageSize) && Taken(n, q.pageSize) > 0
  {
    PageShape(t, q);
  }

  lemma {:induction false} FollowHasPages(t: Table, q: StoreQuery)
    requires |t| < TWO_63
    ensures |Follow(t, q)| == Pages(|Ordered(t, q)|, q.pageSize)
    decreases |Ordered(t, q)|
  {
    PageContinues(t, q);
    if PageOf(t, q).nextCursor.Some? {
      LaterPage(t, q);
      FollowHasPages(t, q.(cursor := PageOf(t, q).nextCursor));
    }
  }

  lemma {:induction false} PagesRoundUp(n: nat, pageSize: U64, size: int)
    requires pageSize < TWO_63 && size == (if pageSize < 1 then 1 else pageSize)
    ensures size * (Pages(n, pageSize) - 1) < (if n == 0 then 1 else n) <= size * Pages(n, pageSize)
    decreases n
  {
    if n > size {
      PagesRoundUp(n - size, pageSize, size);
    }
  }

  /** max(1, ceil(n / size)). From 2^63 on, one page shows everything and still names
      a continuation, so an empty one follows. */
  ghost predicate ExpectedPages(n: nat, pageSize: U64, pages: nat) {
    var size := if pageSize < 1 then 1 else pageSize;
    if pageSize < TWO_63 then size * (pages - 1) < (if n == 0 then 1 else n) <= size * pages
    else pages == if n > 0 && pageSize != MAX_PAGE_SIZE then 2 else 1
  }

  lemma PagesAsExpected(n: nat, pageSize: U64)
    ensures ExpectedPages(n, pageSize, Pages(n, pageSize))
  {
    if pageSize < TWO_63 {
      PagesRoundUp(n, pageSize, if pageSize < 1 then 1 else pageSize);
    } else {
      assert Pages(0, pageSize) == 1;
    }
  }

  lemma PageCount(t: Table, q: StoreQuery)
    requires |t| < TWO_63
    ensures ExpectedPages(|Ordered(t, q)|, q.pageSize, |Follow(t, q)|)
  {
    FollowHasPages(t, q);
    PagesAsExpected(|Ordered(t, q)|, q.pageSize);
  }

  lemma BackwardOrder(t: Table, q: StoreQuery)
    requires q.cursor == None
    ensures Ordered(t, q.(forward := false)) == Reverse(Ordered(t, q.(forward := true)))
  {
    var f, b := q.(forward := true), q.(forward := false);
    forall k ensures k in Ordered(t, b) <==> k in Ordered(t, f) {
      SelectedExactly(t, f, k);
      SelectedExactly(t, b, k);
    }
    OrderedIsSelected(t, f);
    OrderedIsSelected(t, b);
    ReverseAscends(Ordered(t, f));
    AscendingIsUnique(false, Ordered(t, b), Reverse(Ordered(t, f)));
  }

  ghost predicate Mirrors(forth: seq<StoredMessage>, back: seq<StoredMessage>) {
    |forth| == |back| && forall i :: 0 <= i < |forth| ==> back[i] == forth[|forth| - 1 - i]
  }

  lemma StoredAllReverses(t: Table, keys: seq<Key>, includeData: bool)
    requires Present(t, keys) && Present(t, Reverse(keys))
    ensures Mirrors(StoredAll(t, keys, includeData), StoredAll(t, Reverse(keys), includeData))
  {
    var forth, back, n := StoredAll(t, keys, includeData), StoredAll(t, Reverse(keys), includeData), |keys|;
    forall i | 0 <= i < n ensures back[i] == forth[n - 1 - i] {
      assert Reverse(keys)[i] == keys[n - 1 - i];
    }
  }

  /** Without a cursor, the backward walk is the exact reverse of the forward walk. */
  lemma BackwardWalk(t: Table, q: StoreQuery)
    requires |t| < TWO_63 && q.cursor == None && q.pageSize != MAX_PAGE_SIZE
    ensures Mirrors(AllMessages(Follow(t, q.(forward := true))), AllMessages(Follow(t, q.(forward := false))))
  {
    var f, b := q.(forward := true), q.(forward := false);
    FollowShowsAll(t, f);
    FollowShowsAll(t, b);
    BackwardOrder(t, q);
    StoredAllReverses(t, Ordered(t, f), q.includeData);
  }

  function During(q: StoreQuery, start: int, end: int): StoreQuery {
    q.(timeStart := Some(start), timeEnd := Some(end))
  }

  lemma TimeRangesSplit(t: Table, q: StoreQuery, start: int, mid: int, end: int, k: Key)
    requires q.cursor == None && start <= mid <= end
    ensures k in Ordered(t, During(q, start, end))
            <==> k in Ordered(t, During(q, start, mid)) || k in Ordered(t, During(q, mid, end))
    ensures k in Ordered(t, During(q, start, mid)) ==> k.time < mid
    ensures k in Ordered(t, During(q, mid, end)) ==> mid <= k.time
  {
    SelectedExactly(t, During(q, start, end), k);
    SelectedExactly(t, During(q, start, mid), k);
    SelectedExactly(t, During(q, mid, end), k);
  }

  lemma JoinByTime(xs: seq<Key>, ys: seq<Key>, mid: int)
    requires Ascending(true, xs) && Ascending(true, ys)
    requires (forall k :: k in xs ==> k.time < mid) && (forall k :: k in ys ==> mid <= k.time)
    ensures Ascending(true, xs + ys)
  {
    var zs := xs + ys;
    forall i, j | 0 <= i < j < |zs| ensures Before(true, zs[i], zs[j]) {
      if i < |xs| <= j {
        assert xs[i] in xs && ys[j - |xs|] in ys;
      }
    }
  }

  /** Time bounds are inclusive below and exclusive above: two adjoining ranges
      walked one after the other show exactly what the whole range shows. */
  lemma TimeRangesJoin(t: Table, q: StoreQuery, start: int, mid: int, end: int)
    requires q.cursor == None && q.forward && start <= mid <= end
    ensures Ordered(t, During(q, start, end)) == Ordered(t, During(q, start, mid)) + Ordered(t, During(q, mid, end))
  {
    var all := Ordered(t, During(q, start, end));
    var xs, ys := Ordered(t, During(q, start, mid)), Ordered(t, During(q, mid, end));
    forall k ensures (k in all <==> k in xs + ys) && (k in xs ==> k.time < mid) && (k in ys ==> mid <= k.time) {
      TimeRangesSplit(t, q, start, mid, end, k);
    }
    OrderedAscends(t, During(q, start, end));
    OrderedAscends(t, During(q, start, mid));
    OrderedAscends(t, During(q, mid, end));
    JoinByTime(xs, ys, mid);
    AscendingIsUnique(true, all, xs + ys);
  }

  lemma OrderedAscends(t: Table, q: StoreQuery)
    ensures Ascending(q.forward, Ordered(t, q))
  {
    OrderedIsSelected(t, q);
  }

  // ----- Putting and querying

  /** What a query without a cursor asks of a message put on a topic: its topic, one of
      the content topics, one of the hashes, and the half-open time range. */
  ghost predicate Wants(q: StoreQuery, pubsubTopic: string, msg: WakuMessage, h: Hash, time: int) {
    && (q.pubsubTopic == None || q.pubsubTopic == Some(pubsubTopic))
    && (q.contentTopics == [] || msg.contentTopic in q.contentTopics)
    && (q.messageHashes == [] || h in q.messageHashes)
    && (q.timeStart == None || q.timeStart.value <= time)
    && (q.timeEnd == None || time < q.timeEnd.value)
  }

  function TimeOf(msg: WakuMessage, receiverTime: int): int {
    match msg.timestamp
    case Some(timestamp) => timestamp
    case None => receiverTime
  }

  lemma PutPlace(
      digest: (string, WakuMessage) -> Hash, t: Table, pubsubTopic: string, msg: WakuMessage, receiverTime: int,
      q: StoreQuery)
    requires digest(pubsubTopic, msg) !in t && q.cursor == None
    ensures var h, t' := digest(pubsubTopic, msg), PutRow(digest, t, pubsubTopic, msg, receiverTime);
      var k := Key(TimeOf(msg, receiverTime), h);
      && h in t' && KeyOf(t', h) == k
      && (k in Ordered(t', q) <==> Wants(q, pubsubTopic, msg, h, k.time))
      && Stored(t', h, true) == StoredMessage(h, pubsubTopic, Some(msg), receiverTime)
      && Stored(t', h, false) == StoredMessage(h, pubsubTopic, None, receiverTime)
  {
    var h, t' := digest(pubsubTopic, msg), PutRow(digest, t, pubsubTopic, msg, receiverTime);
    SelectedExactly(t', q, Key(TimeOf(msg, receiverTime), h));
  }

  lemma StoredAllMembers(t: Table, keys: seq<Key>, includeData: bool, h: Hash, k: Key)
    requires Present(t, keys) && h in t && k.hash == h
    requires forall i :: 0 <= i < |keys| && keys[i].hash == h ==> keys[i] == k
    ensures Stored(t, h, includeData) in StoredAll(t, keys, includeData) <==> k in keys
  {
    var all := StoredAll(t, keys, includeData);
    if k in keys {
      var i :| 0 <= i < |keys| && keys[i] == k;
      assert all[i] == Stored(t, h, includeData);
    }
    if Stored(t, h, includeData) in all {
      var i :| 0 <= i < |all| && all[i] == Stored(t, h, includeData);
      assert keys[i].hash == h;
    }
  }

  /** A message put under a new hash is found by exactly the queries that want it, with
      the topic, content and receiver time it was put with; other rows are untouched,
      and putting a hash again changes nothing. */
  lemma PutThenQuery(
      digest: (string, WakuMessage) -> Hash, t: Table, pubsubTopic: string, msg: WakuMessage, receiverTime: int,
      q: StoreQuery)
    requires q.cursor == None && q.pageSize != MAX_PAGE_SIZE && |t| < TWO_63 - 1
    ensures var h, t' := digest(pubsubTopic, msg), PutRow(digest, t, pubsubTopic, msg, receiverTime);
      && (h in t ==> t' == t)
      && (forall other :: other != h ==> (other in t' <==> other in t) && (other in t ==> t'[other] == t[other]))
      && |t'| < TWO_63
      && (h !in t ==>
            (StoredMessage(h, pubsubTopic, if q.includeData then Some(msg) else None, receiverTime)
               in AllMessages(Follow(t', q))
             <==> Wants(q, pubsubTopic, msg, h, TimeOf(msg, receiverTime))))
  {
    var h, t' := digest(pubsubTopic, msg), PutRow(digest, t, pubsubTopic, msg, receiverTime);
    if h !in t {
      assert t'.Keys == t.Keys + {h};
      var k, keys := Key(TimeOf(msg, receiverTime), h), Ordered(t', q);
      PutPlace(digest, t, pubsubTopic, msg, receiverTime, q);
      FollowShowsAll(t', q);
      forall i | 0 <= i < |keys| && keys[i].hash == h ensures keys[i] == k {
        assert keys[i] in keys;
        SelectedExactly(t', q, keys[i]);
      }
      StoredAllMembers(t', keys, q.includeData, h, k);
    }
  }
}
