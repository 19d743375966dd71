/**
  The SQLite-backed message store of 13/WAKU2-STORE v3: idempotent insertion,
  filtered keyset pagination, and retention by age and by capacity.
 */
module Store {
  import opened Common
  import opened StoreOrder
  import opened KeysetWalk

  datatype Row = Row(pubsubTopic: string, message: WakuMessage, receiverTime: int, sortTime: int)

  type Table = map<Hash, Row>

  datatype StoredMessage = StoredMessage(
    hash: Hash, pubsubTopic: string, message: Option<WakuMessage>, receiverTime: int)

  datatype StoreQuery = StoreQuery(
    pubsubTopic: Option<string>,
    contentTopics: seq<string>,
    timeStart: Option<int>,
    timeEnd: Option<int>,
    messageHashes: seq<Hash>,
    includeData: bool,
    pageSize: U64,
    forward: bool,
    cursor: Option<Hash>)

  datatype Page = Page(messages: seq<StoredMessage>, nextCursor: Option<Hash>)

  // ----- The SELECT statement

  function KeyOf(t: Table, h: Hash): Key
    requires h in t
  {
    Key(t[h].sortTime, h)
  }

  predicate Filter(q: StoreQuery, h: Hash, row: Row) {
    && (q.pubsubTopic.Some? ==> row.pubsubTopic == q.pubsubTopic.value)
    && (q.contentTopics != [] ==> row.message.contentTopic in q.contentTopics)
    && (q.messageHashes != [] ==> h in q.messageHashes)
    && (q.timeStart.Some? ==> row.sortTime >= q.timeStart.value)
    && (q.timeEnd.Some? ==> row.sortTime < q.timeEnd.value)
  }

  /** The cursor's key; a cursor whose row is gone is no cursor at all. */
  function CursorKey(t: Table, cursor: Option<Hash>): Option<Key> {
    if cursor.Some? && cursor.value in t then Some(KeyOf(t, cursor.value)) else None
  }

  /** The WHERE clause. */
  function Chosen(t: Table, q: StoreQuery): set<Hash> {
    set h | h in t && Filter(q, h, t[h]) && PastCursor(q.forward, CursorKey(t, q.cursor), KeyOf(t, h))
  }

  function KeysOf(t: Table, hashes: set<Hash>): set<Key>
    requires hashes <= t.Keys
  {
    set h | h in hashes :: KeyOf(t, h)
  }

  function Selected(t: Table, q: StoreQuery): set<Key> {
    KeysOf(t, Chosen(t, q))
  }

  lemma {:induction false} KeysAreAsMany(t: Table, hashes: set<Hash>)
    requires hashes <= t.Keys
    ensures |KeysOf(t, hashes)| == |hashes|
  {
    if hashes != {} {
      var h :| h in hashes;
      KeysAreAsMany(t, hashes - {h});
      assert KeysOf(t, hashes) == KeysOf(t, hashes - {h}) + {KeyOf(t, h)};
    }
  }

  // ----- LIMIT and the 64-bit casts

  function AsI64(n: U64): int {
    if n < TWO_63 then n else n - TWO_64
  }

  function AddOneI64(n: int): int {
    if n == TWO_63 - 1 then -TWO_63 else n + 1
  }

  function AsUsize(n: int): int {
    if n < 0 then n + TWO_64 else n
  }

  /** A negative LIMIT means no limit. */
  function Limited(rows: seq<Key>, limit: int): seq<Key> {
    if limit < 0 || |rows| <= limit then rows else rows[..limit]
  }

  function Stored(t: Table, h: Hash, includeData: bool): StoredMessage
    requires h in t
  {
    var row := t[h];
    StoredMessage(h, row.pubsubTopic, if includeData then Some(row.message) else None, row.receiverTime)
  }

  predicate Present(t: Table, keys: seq<Key>) {
    forall i :: 0 <= i < |keys| ==> keys[i].hash in t
  }

  function StoredAll(t: Table, keys: seq<Key>, includeData: bool): (messages: seq<StoredMessage>)
    requires Present(t, keys)
    ensures |messages| == |keys|
    ensures forall i :: 0 <= i < |keys| ==> messages[i] == Stored(t, keys[i].hash, includeData)
  {
    if keys == [] then []
    else
      var n := |keys| - 1;
      StoredAll(t, keys[..n], includeData) + [Stored(t, keys[n].hash, includeData)]
  }

  function LimitOf(q: StoreQuery): int {
    AsI64(if q.pageSize < 1 then 1 else q.pageSize)
  }

  lemma OrderedIsSelected(t: Table, q: StoreQuery)
    ensures var keys := Ordered(t, q);
      && Ascending(q.forward, keys) && |keys| == |Selected(t, q)|
      && forall k :: k in keys <==> k in Selected(t, q)
  {
    SortedIsSorted(q.forward, Selected(t, q));
  }

  lemma SortedArePresent(t: Table, forward: bool, hashes: set<Hash>)
    requires hashes <= t.Keys
    ensures Present(t, Sorted(forward, KeysOf(t, hashes)))
  {
    SortedIsSorted(forward, KeysOf(t, hashes));
    var keys := Sorted(forward, KeysOf(t, hashes));
    forall i | 0 <= i < |keys| ensures keys[i].hash in t {
      assert keys[i] in KeysOf(t, hashes);
    }
  }

  /** The selected rows in walking order. */
  function Ordered(t: Table, q: StoreQuery): (keys: seq<Key>)
    ensures Present(t, keys)
  {
    SortedArePresent(t, q.forward, Chosen(t, q));
    Sorted(q.forward, Selected(t, q))
  }

  /** What the database returns: one row more than a page. */
  function Fetched(t: Table, q: StoreQuery): (keys: seq<Key>)
    ensures Present(t, keys)
  {
    Limited(Ordered(t, q), AddOneI64(LimitOf(q)))
  }

  /** One page of results and where to continue. */
  function PageOf(t: Table, q: StoreQuery): Page {
    var fetched, limit := Fetched(t, q), LimitOf(q);
    var shown := fetched[..Min(|fetched|, AsUsize(limit))];
    Page(StoredAll(t, shown, q.includeData),
         if |fetched| > limit && shown != [] then Some(shown[|shown| - 1].hash) else None)
  }

  function PutRow(
      digest: (string, WakuMessage) -> Hash, t: Table, pubsubTopic: string, msg: WakuMessage, receiverTime: int): Table
  {
    var h := digest(pubsubTopic, msg);
    if h in t then t
    else t[h := Row(pubsubTopic, msg, receiverTime, msg.timestamp.GetOr(receiverTime))]
  }

  // ----- Retention

  /** DELETE ... WHERE sort_time < cutoff. */
  function Recent(t: Table, cutoff: int): Table {
    map h | h in t && t[h].sortTime >= cutoff :: t[h]
  }

  /** A negative OFFSET counts as zero, and max is cast to a signed integer. */
  function Offset(max: U64): nat {
    if AsI64(max) < 0 then 0 else AsI64(max)
  }

  function KeysFrom(t: Table): set<Key> {
    KeysOf(t, t.Keys)
  }

  /** The keys beyond the offset in descending order. */
  function Excess(t: Table, max: U64): seq<Key> {
    var newestFirst := Sorted(false, KeysFrom(t));
    if |newestFirst| <= Offset(max) then [] else newestFirst[Offset(max)..]
  }

  function Capped(t: Table, max: U64): Table {
    var excess := Excess(t, max);
    map h | h in t && KeyOf(t, h) !in excess :: t[h]
  }

  lemma SubsetIsSmaller<T>(a: set<T>, b: set<T>)
    requires a <= b
    ensures |a| <= |b|
  {
    assert |b| == |a| + |b - a|;
  }

  method Collect(t: Table, keys: seq<Key>, includeData: bool) returns (messages: seq<StoredMessage>)
    requires Present(t, keys)
    ensures messages == StoredAll(t, keys, includeData)
  {
    messages := [];
    for i := 0 to |keys|
      invariant messages == StoredAll(t, keys[..i], includeData)
    {
      assert keys[..i + 1][..i] == keys[..i];
      messages := messages + [Stored(t, keys[i].hash, includeData)];
    }
    assert keys[..|keys|] == keys;
  }

  class SqliteStore {
    const digest: (string, WakuMessage) -> Hash
    var rows: Table

    constructor (digest: (string, WakuMessage) -> Hash)
      ensures this.digest == digest && rows == map[]
    {
      this.digest := digest;
      rows := map[];
    }

    method Put(pubsubTopic: string, msg: WakuMessage, receiverTime: int)
      modifies this
      ensures rows == PutRow(digest, old(rows), pubsubTopic, msg, receiverTime)
    {
      var hash := digest(pubsubTopic, msg);
      var sortTime := if msg.timestamp.Some? then msg.timestamp.value else receiverTime;
      if hash !in rows {
        rows := rows[hash := Row(pubsubTopic, msg, receiverTime, sortTime)];
      }
    }

    method Query(q: StoreQuery) returns (page: Page)
      ensures page == PageOf(rows, q)
    {
      var limit := LimitOf(q);
      var fetched := Fetched(rows, q);
      var hasMore := |fetched| > limit;
      var take := Min(|fetched|, AsUsize(limit));
      var messages := Collect(rows, fetched[..take], q.includeData);
      var next := None;
      if hasMore && messages != [] {
        next := Some(messages[|messages| - 1].hash);
      }
      return Page(messages, next);
    }

    method DeleteOlderThan(cutoff: int) returns (deleted: nat)
      modifies this
      ensures rows == Recent(old(rows), cutoff)
      ensures deleted == |old(rows)| - |rows|
    {
      var before := rows;
      rows := Recent(before, cutoff);
      assert rows.Keys <= before.Keys;
      SubsetIsSmaller(rows.Keys, before.Keys);
      deleted := |before| - |rows|;
    }

    method EnforceCapacity(max: U64) returns (deleted: nat)
      modifies this
      ensures rows == Capped(old(rows), max)
      ensures deleted == |old(rows)| - |rows|
    {
      var before := rows;
      rows := Capped(before, max);
      assert rows.Keys <= before.Keys;
      SubsetIsSmaller(rows.Keys, before.Keys);
      deleted := |before| - |rows|;
    }
  }
}
