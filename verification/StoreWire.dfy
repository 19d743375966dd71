/**
  The store-query protocol over the store: translation of requests, answers, and
  what a remote client sees that copies each `pagination_cursor` back.
 */
module StoreWire {
  import opened Common
  import opened StoreOrder
  import opened Store
  import opened StorePaging
  import opened ChangingStore
  import opened StoreUpkeep

  const DEFAULT_PAGE_SIZE: U64 := 20

  datatype StoreQueryRequest = StoreQueryRequest(
    requestId: string,
    includeData: bool,
    pubsubTopic: Option<string>,
    contentTopics: seq<string>,
    timeStart: Option<int>,
    timeEnd: Option<int>,
    messageHashes: seq<seq<Byte>>,
    paginationCursor: Option<seq<Byte>>,
    paginationForward: bool,
    paginationLimit: Option<U64>)

  datatype KeyValue = KeyValue(
    messageHash: Option<seq<Byte>>, message: Option<WakuMessage>, pubsubTopic: Option<string>)

  datatype StoreQueryResponse = StoreQueryResponse(
    requestId: string,
    statusCode: Option<nat>,
    statusDesc: Option<string>,
    messages: seq<KeyValue>,
    paginationCursor: Option<seq<Byte>>)

  function AsHash(bytes: seq<Byte>): Option<Hash> {
    if |bytes| == 32 then Some(bytes) else None
  }

  /** Byte strings that are not hashes are dropped. */
  function AsHashes(all: seq<seq<Byte>>): seq<Hash> {
    if all == [] then []
    else if |all[0]| == 32 then [all[0]] + AsHashes(all[1..])
    else AsHashes(all[1..])
  }

  function RequestToQuery(req: StoreQueryRequest): StoreQuery {
    StoreQuery(
      req.pubsubTopic,
      req.contentTopics,
      req.timeStart,
      req.timeEnd,
      AsHashes(req.messageHashes),
      req.includeData,
      req.paginationLimit.GetOr(DEFAULT_PAGE_SIZE),
      req.paginationForward,
      if req.paginationCursor.Some? then AsHash(req.paginationCursor.value) else None)
  }

  function ToKeyValue(m: StoredMessage): KeyValue {
    KeyValue(Some(m.hash), m.message, Some(m.pubsubTopic))
  }

  function ToKeyValues(ms: seq<StoredMessage>): (kvs: seq<KeyValue>)
    ensures |kvs| == |ms|
    ensures forall i :: 0 <= i < |ms| ==> kvs[i] == ToKeyValue(ms[i])
  {
    if ms == [] then [] else [ToKeyValue(ms[0])] + ToKeyValues(ms[1..])
  }

  function Serve(t: Table, req: StoreQueryRequest): StoreQueryResponse {
    var page := PageOf(t, RequestToQuery(req));
    StoreQueryResponse(
      req.requestId,
      Some(200),
      Some("OK"),
      ToKeyValues(page.messages),
      if page.nextCursor.Some? then Some(page.nextCursor.value) else None)
  }

  /** A cursor handed out is understood when it comes back. */
  lemma CursorComesBack(req: StoreQueryRequest, h: Hash)
    ensures RequestToQuery(req.(paginationCursor := Some(h))) == RequestToQuery(req).(cursor := Some(h))
  {
  }

  /** A remote client that sends each cursor back until there is none. */
  ghost function WireFollow(t: Table, req: StoreQueryRequest): seq<StoreQueryResponse>
    requires |t| < TWO_63
    decreases |Ordered(t, RequestToQuery(req))|
  {
    var response := Serve(t, req);
    if response.paginationCursor == None then [response]
    else
      LaterPage(t, RequestToQuery(req));
      CursorComesBack(req, response.paginationCursor.value);
      [response] + WireFollow(t, req.(paginationCursor := response.paginationCursor))
  }

  ghost function Received(responses: seq<StoreQueryResponse>): seq<KeyValue> {
    if responses == [] then [] else responses[0].messages + Received(responses[1..])
  }

  lemma ReceivedCons(response: StoreQueryResponse, rest: seq<StoreQueryResponse>)
    ensures Received([response] + rest) == response.messages + Received(rest)
    ensures Received([response]) == response.messages
  {
    assert ([response] + rest)[1..] == rest && [response][1..] == [];
  }

  lemma ToKeyValuesJoins(xs: seq<StoredMessage>, ys: seq<StoredMessage>)
    ensures ToKeyValues(xs + ys) == ToKeyValues(xs) + ToKeyValues(ys)
  {
  }

  lemma {:induction false} WireFollowsStore(t: Table, req: StoreQueryRequest)
    requires |t| < TWO_63
    ensures Received(WireFollow(t, req)) == ToKeyValues(AllMessages(Follow(t, RequestToQuery(req))))
    decreases |Ordered(t, RequestToQuery(req))|
  {
    var q := RequestToQuery(req);
    var page, response := PageOf(t, q), Serve(t, req);
    if page.nextCursor == None {
      AllMessagesCons(page, []);
      ReceivedCons(response, []);
    } else {
      var req', q' := req.(paginationCursor := response.paginationCursor), q.(cursor := page.nextCursor);
      LaterPage(t, q);
      CursorComesBack(req, page.nextCursor.value);
      WireFollowsStore(t, req');
      AllMessagesCons(page, Follow(t, q'));
      ReceivedCons(response, WireFollow(t, req'));
      ToKeyValuesJoins(page.messages, AllMessages(Follow(t, q')));
    }
  }

  /** On a fixed store, the remote client receives every matching row once, in
      order, with the row's own hash, topic and, when asked for, message. */
  lemma WireClientSeesAll(t: Table, req: StoreQueryRequest)
    requires |t| < TWO_63 && req.paginationLimit != Some(MAX_PAGE_SIZE)
    ensures var got, rows := Received(WireFollow(t, req)), Ordered(t, RequestToQuery(req));
      && |got| == |rows|
      && forall i :: 0 <= i < |rows| ==>
           var row := t[rows[i].hash];
           var message := if req.includeData then Some(row.message) else None;
           got[i] == KeyValue(Some(rows[i].hash), message, Some(row.pubsubTopic))
  {
    WireFollowsStore(t, req);
    FollowShowsAll(t, RequestToQuery(req));
  }

  lemma {:induction false} AsHashesKeeps(all: seq<seq<Byte>>, h: Hash)
    ensures h in AsHashes(all) <==> h in all
    ensures AsHashes(all) != [] <==> exists b :: b in all && |b| == 32
  {
    if all != [] {
      AsHashesKeeps(all[1..], h);
      assert all == [all[0]] + all[1..];
    }
  }

  /** What a request asks for: the named pubsub topic, one of the content topics,
      one of the hashes if any is well formed, and the half-open time range. */
  ghost predicate AsksFor(req: StoreQueryRequest, h: Hash, row: Row) {
    && (req.pubsubTopic == None || req.pubsubTopic == Some(row.pubsubTopic))
    && (req.contentTopics == [] || row.message.contentTopic in req.contentTopics)
    && ((exists b :: b in req.messageHashes && |b| == 32) ==> h in req.messageHashes)
    && req.timeStart.GetOr(row.sortTime) <= row.sortTime < req.timeEnd.GetOr(row.sortTime + 1)
  }

  lemma FilterIsAsksFor(req: StoreQueryRequest, h: Hash, row: Row)
    ensures Filter(RequestToQuery(req), h, row) <==> AsksFor(req, h, row)
  {
    AsHashesKeeps(req.messageHashes, h);
  }

  lemma EligibleExactly(t: Table, q: StoreQuery, h: Hash)
    requires h in t
    ensures KeyOf(t, h) in Eligible(t, q) <==> Filter(q, h, t[h])
  {
  }

  /** A request without a cursor, or with one that is no hash, selects exactly the
      rows it asks for. */
  lemma RequestSelectsExactly(t: Table, req: StoreQueryRequest, h: Hash)
    requires h in t && (req.paginationCursor == None || |req.paginationCursor.value| != 32)
    ensures KeyOf(t, h) in Ordered(t, RequestToQuery(req)) <==> AsksFor(req, h, t[h])
  {
    var q := RequestToQuery(req);
    SelectedExactly(t, q, KeyOf(t, h));
    FilterIsAsksFor(req, h, t[h]);
    EligibleExactly(t, q, h);
  }

  // ----- A remote client while the store changes

  /** A request served: the table at that moment and the cursor sent. */
  datatype Exchange = Exchange(t: Table, cursor: Option<seq<Byte>>)

  function Sent(req: StoreQueryRequest, x: Exchange): StoreQueryRequest {
    req.(paginationCursor := x.cursor)
  }

  /** The client sends back each `pagination_cursor` it gets, until there is none. */
  ghost predicate IsWireWalk(req: StoreQueryRequest, xs: seq<Exchange>) {
    && xs != []
    && (forall i :: 0 < i < |xs| ==> Continued(req, xs[i - 1], xs[i]))
    && Serve(xs[|xs| - 1].t, Sent(req, xs[|xs| - 1])).paginationCursor == None
  }

  ghost predicate Continued(req: StoreQueryRequest, x: Exchange, x': Exchange) {
    x'.cursor.Some? && x'.cursor == Serve(x.t, Sent(req, x)).paginationCursor
  }

  ghost function WireShown(req: StoreQueryRequest, xs: seq<Exchange>): seq<KeyValue> {
    if xs == [] then [] else Serve(xs[0].t, Sent(req, xs[0])).messages + WireShown(req, xs[1..])
  }

  function VisitOf(x: Exchange): Visit {
    Visit(x.t, if x.cursor.Some? then AsHash(x.cursor.value) else None)
  }

  function VisitsOf(xs: seq<Exchange>): (vs: seq<Visit>)
    ensures |vs| == |xs| && forall i :: 0 <= i < |xs| ==> vs[i] == VisitOf(xs[i])
  {
    if xs == [] then [] else [VisitOf(xs[0])] + VisitsOf(xs[1..])
  }

  lemma ServedIsVisited(req: StoreQueryRequest, x: Exchange)
    ensures var page := PageOf(x.t, At(RequestToQuery(req), VisitOf(x)));
      var response := Serve(x.t, Sent(req, x));
      response.messages == ToKeyValues(page.messages) && response.paginationCursor == page.nextCursor
  {
    assert RequestToQuery(Sent(req, x)) == At(RequestToQuery(req), VisitOf(x));
  }

  lemma ContinuedResumes(req: StoreQueryRequest, x: Exchange, x': Exchange)
    requires Continued(req, x, x')
    ensures Resumes(RequestToQuery(req), VisitOf(x), VisitOf(x'))
  {
    ServedIsVisited(req, x);
  }

  lemma EndOfWireWalk(req: StoreQueryRequest, x: Exchange)
    requires Serve(x.t, Sent(req, x)).paginationCursor == None
    ensures PageOf(x.t, At(RequestToQuery(req), VisitOf(x))).nextCursor == None
  {
    ServedIsVisited(req, x);
  }

  lemma LinksMakeWalk(q: StoreQuery, vs: seq<Visit>)
    requires vs != [] && PageOf(vs[|vs| - 1].t, At(q, vs[|vs| - 1])).nextCursor == None
    requires forall i :: 0 < i < |vs| ==> Resumes(q, vs[i - 1], vs[i])
    ensures IsWalk(q, vs)
  {
  }

  lemma WireWalkIsWalk(req: StoreQueryRequest, xs: seq<Exchange>)
    requires IsWireWalk(req, xs)
    ensures IsWalk(RequestToQuery(req), VisitsOf(xs))
  {
    var vs, q := VisitsOf(xs), RequestToQuery(req);
    forall i | 0 < i < |vs| ensures Resumes(q, vs[i - 1], vs[i]) {
      var x, x' := xs[i - 1], xs[i];
      assert Continued(req, x, x');
      ContinuedResumes(req, x, x');
    }
    EndOfWireWalk(req, xs[|xs| - 1]);
    LinksMakeWalk(q, vs);
  }

  lemma ShownCons(q: StoreQuery, v: Visit, rest: seq<Visit>)
    ensures Shown(q, [v] + rest) == PageOf(v.t, At(q, v)).messages + Shown(q, rest)
  {
    assert ([v] + rest)[1..] == rest;
  }

  lemma {:induction false} WireShowsShown(req: StoreQueryRequest, xs: seq<Exchange>)
    ensures WireShown(req, xs) == ToKeyValues(Shown(RequestToQuery(req), VisitsOf(xs)))
  {
    if xs != [] {
      var q, v, rest := RequestToQuery(req), VisitOf(xs[0]), VisitsOf(xs[1..]);
      ServedIsVisited(req, xs[0]);
      WireShowsShown(req, xs[1..]);
      ShownCons(q, v, rest);
      ToKeyValuesJoins(PageOf(v.t, At(q, v)).messages, Shown(q, rest));
    }
  }

  /** How often the client receives row h. */
  ghost function TimesReceived(kvs: seq<KeyValue>, h: Hash): nat {
    if kvs == [] then 0 else (if kvs[0].messageHash == Some(h) then 1 else 0) + TimesReceived(kvs[1..], h)
  }

  lemma {:induction false} ReceivedAsOften(ms: seq<StoredMessage>, h: Hash)
    ensures TimesReceived(ToKeyValues(ms), h) == Times(ms, h)
  {
    if ms != [] {
      ReceivedAsOften(ms[1..], h);
      assert ToKeyValues(ms)[1..] == ToKeyValues(ms[1..]);
    }
  }

  /** Whatever happens to the store between requests, a client that copies each cursor
      back makes a walk of the store and receives exactly its messages, so each row as
      often as that walk shows it. */
  lemma WireFollowsChanges(req: StoreQueryRequest, xs: seq<Exchange>, h: Hash)
    requires IsWireWalk(req, xs)
    ensures var q, vs := RequestToQuery(req), VisitsOf(xs);
      && IsWalk(q, vs)
      && WireShown(req, xs) == ToKeyValues(Shown(q, vs))
      && TimesReceived(WireShown(req, xs), h) == Times(Shown(q, vs), h)
  {
    WireWalkIsWalk(req, xs);
    WireShowsShown(req, xs);
    ReceivedAsOften(Shown(RequestToQuery(req), VisitsOf(xs)), h);
  }

  /** While arbitrary messages are stored between requests, a client receives every row
      stored before the first one that it asks for exactly once, and no row twice. */
  lemma WirePagingUnderPuts(
      digest: Digest, req: StoreQueryRequest, xs: seq<Exchange>, ups: seq<seq<Upkeep>>, h: Hash)
    requires IsWireWalk(req, xs) && xs[0].cursor == None && req.paginationLimit != Some(MAX_PAGE_SIZE)
    requires Fit(VisitsOf(xs)) && Evolves(digest, VisitsOf(xs), ups) && AllPuts(ups)
    ensures TimesReceived(WireShown(req, xs), h) <= 1
    ensures h in xs[0].t && AsksFor(req, h, xs[0].t[h]) ==> TimesReceived(WireShown(req, xs), h) == 1
  {
    var q, vs := RequestToQuery(req), VisitsOf(xs);
    WireFollowsChanges(req, xs, h);
    PagingUnderPuts(digest, q, vs, ups, h);
    ShownIsCounted(Shown(q, vs), h);
    if h in xs[0].t { FilterIsAsksFor(req, h, xs[0].t[h]); }
  }

  // ----- Order and size of the answers

  /** Row a is earlier than row b: by time, and at equal times by hash. */
  ghost predicate Earlier(t: Table, a: Hash, b: Hash)
    requires a in t && b in t
  {
    t[a].sortTime < t[b].sortTime || (t[a].sortTime == t[b].sortTime && LexLess(a, b))
  }

  /** On a fixed store, rows are received from earlier to later if the request says
      forward, and from later to earlier if not. */
  lemma WireOrder(t: Table, req: StoreQueryRequest, i: nat, j: nat)
    requires |t| < TWO_63 && req.paginationLimit != Some(MAX_PAGE_SIZE)
    requires i < j < |Received(WireFollow(t, req))|
    ensures var got := Received(WireFollow(t, req));
      && got[i].messageHash.Some? && got[i].messageHash.value in t
      && got[j].messageHash.Some? && got[j].messageHash.value in t
      && var a: Hash, b: Hash := got[i].messageHash.value, got[j].messageHash.value;
      if req.paginationForward then Earlier(t, a, b) else Earlier(t, b, a)
  {
    var rows := Ordered(t, RequestToQuery(req));
    WireClientSeesAll(t, req);
    OrderedAscends(t, RequestToQuery(req));
    SelectedExactly(t, RequestToQuery(req), rows[i]);
    SelectedExactly(t, RequestToQuery(req), rows[j]);
    assert Before(req.paginationForward, rows[i], rows[j]);
  }

  /** An answer echoes the request's id, reports success and carries as many of the n
      selected rows as the limit allows: 20 if none is given, and at least one. It names
      a continuation, the last row it carries, exactly when that leaves rows out. */
  lemma ServedPage(t: Table, req: StoreQueryRequest)
    requires |t| < TWO_63 && (req.paginationLimit.Some? ==> req.paginationLimit.value < TWO_63)
    ensures var response, n := Serve(t, req), |Ordered(t, RequestToQuery(req))|;
      var limit := if req.paginationLimit.Some? then req.paginationLimit.value else 20;
      var size := if limit < 1 then 1 else limit;
      && response.requestId == req.requestId
      && response.statusCode == Some(200) && response.statusDesc == Some("OK")
      && |response.messages| == Min(n, size)
      && (response.paginationCursor.Some? <==> n > size)
      && (n > size ==> response.paginationCursor == response.messages[size - 1].messageHash)
  {
    PageOfSize(t, RequestToQuery(req));
  }

  lemma PageOfSize(t: Table, q: StoreQuery)
    requires |t| < TWO_63 && q.pageSize < TWO_63
    ensures var page, n, size := PageOf(t, q), |Ordered(t, q)|, if q.pageSize < 1 then 1 else q.pageSize;
      && |page.messages| == Min(n, size)
      && (page.nextCursor.Some? <==> n > size)
      && (n > size ==> page.nextCursor == Some(page.messages[size - 1].hash))
  {
    PageShape(t, q);
  }
}
