/**
  Pagination while the node stores messages and runs retention: which of the
  conditions for exactly-once paging each kind of upkeep meets.
 */
module StoreUpkeep {
  import opened Common
  import opened StoreOrder
  import opened KeysetWalk
  import opened Store
  import opened StorePaging
  import opened ChangingStore
  import opened Retention

  type Digest = (string, WakuMessage) -> Hash

  datatype Upkeep =
    | Put(pubsubTopic: string, message: WakuMessage, receiverTime: int)
    | DeleteOlderThan(cutoff: int)
    | EnforceCapacity(max: U64)

  ghost function Upkept(digest: Digest, t: Table, up: Upkeep): Table {
    match up
    case Put(pubsubTopic, message, receiverTime) => PutRow(digest, t, pubsubTopic, message, receiverTime)
    case DeleteOlderThan(cutoff) => Recent(t, cutoff)
    case EnforceCapacity(max) => Capped(t, max)
  }

  ghost function UpkeptAll(digest: Digest, t: Table, ups: seq<Upkeep>): Table
    decreases |ups|
  {
    if ups == [] then t else UpkeptAll(digest, Upkept(digest, t, ups[0]), ups[1..])
  }

  /** Row h is there before, during and after the upkeep. */
  ghost predicate Stays(digest: Digest, t: Table, ups: seq<Upkeep>, h: Hash)
    decreases |ups|
  {
    h in t && (ups != [] ==> Stays(digest, Upkept(digest, t, ups[0]), ups[1..], h))
  }

  ghost predicate OnlyPuts(ups: seq<Upkeep>) {
    forall i :: 0 <= i < |ups| ==> ups[i].Put?
  }

  ghost predicate OnlyRetention(ups: seq<Upkeep>) {
    forall i :: 0 <= i < |ups| ==> !ups[i].Put?
  }

  lemma {:induction false} StaysTheSame(digest: Digest, t: Table, ups: seq<Upkeep>, h: Hash)
    requires Stays(digest, t, ups, h)
    ensures var t' := UpkeptAll(digest, t, ups); h in t' && t'[h] == t[h]
    decreases |ups|
  {
    if ups != [] {
      StaysTheSame(digest, Upkept(digest, t, ups[0]), ups[1..], h);
    }
  }

  lemma {:induction false} PutsKeepRows(digest: Digest, t: Table, ups: seq<Upkeep>, h: Hash)
    requires OnlyPuts(ups) && h in t
    ensures Stays(digest, t, ups, h)
    decreases |ups|
  {
    if ups != [] {
      assert ups[0].Put?;
      PutsKeepRows(digest, Upkept(digest, t, ups[0]), ups[1..], h);
    }
  }

  lemma {:induction false} RetainedWasThere(digest: Digest, t: Table, ups: seq<Upkeep>, h: Hash)
    requires OnlyRetention(ups) && h in UpkeptAll(digest, t, ups)
    ensures Stays(digest, t, ups, h)
    decreases |ups|
  {
    if ups != [] {
      assert !ups[0].Put?;
      RetainedWasThere(digest, Upkept(digest, t, ups[0]), ups[1..], h);
    }
  }

  lemma OneStepDeletesOldest(digest: Digest, t: Table, up: Upkeep, c: Hash, h: Hash)
    requires c in t && h in t && c !in Upkept(digest, t, up) && h in Upkept(digest, t, up)
    ensures Less(KeyOf(t, c), KeyOf(t, h))
  {
    Total(true, KeyOf(t, c), KeyOf(t, h));
    if up.EnforceCapacity? && Less(KeyOf(t, h), KeyOf(t, c)) {
      CappedAreTheNewest(t, up.max, h, c);
    }
  }

  /** Whatever is stored and expired, a row that stays is newer than one that does
      not, even if that one comes back. */
  lemma {:induction false} StayingIsNewer(digest: Digest, t: Table, ups: seq<Upkeep>, c: Hash, h: Hash)
    requires c in t && !Stays(digest, t, ups, c) && Stays(digest, t, ups, h)
    ensures Less(KeyOf(t, c), KeyOf(t, h))
    decreases |ups|
  {
    var t' := Upkept(digest, t, ups[0]);
    if c in t' {
      StayingIsNewer(digest, t', ups[1..], c, h);
    } else {
      assert h in t';
      OneStepDeletesOldest(digest, t, ups[0], c, h);
    }
  }

  // ----- Arbitrary upkeep between pages

  /** Between consecutive pages, the given upkeep happens. */
  ghost predicate Evolves(digest: Digest, vs: seq<Visit>, ups: seq<seq<Upkeep>>) {
    && |ups| == |vs|
    && forall i :: 0 < i < |vs| ==> vs[i].t == UpkeptAll(digest, vs[i - 1].t, ups[i])
  }

  /** Row h matches at the first page and is there ever after. */
  ghost predicate StaysThroughout(digest: Digest, q: StoreQuery, vs: seq<Visit>, ups: seq<seq<Upkeep>>, h: Hash) {
    && vs != [] && |ups| == |vs|
    && h in vs[0].t && Filter(q, h, vs[0].t[h])
    && forall i :: 0 < i < |vs| ==> Stays(digest, vs[i - 1].t, ups[i], h)
  }

  lemma {:induction false} RowThroughout(
      digest: Digest, q: StoreQuery, vs: seq<Visit>, ups: seq<seq<Upkeep>>, h: Hash, i: nat)
    requires Evolves(digest, vs, ups) && StaysThroughout(digest, q, vs, ups, h) && i < |vs|
    ensures h in vs[i].t && vs[i].t[h] == vs[0].t[h]
  {
    if i > 0 {
      RowThroughout(digest, q, vs, ups, h, i - 1);
      StaysTheSame(digest, vs[i - 1].t, ups[i], h);
    }
  }

  lemma StayingRowStaysPut(digest: Digest, q: StoreQuery, vs: seq<Visit>, ups: seq<seq<Upkeep>>, h: Hash)
    requires Evolves(digest, vs, ups) && StaysThroughout(digest, q, vs, ups, h)
    ensures StaysPut(q, vs, h, KeyOf(vs[0].t, h))
  {
    forall i | 0 <= i < |vs|
      ensures h in vs[i].t && Filter(q, h, vs[i].t[h]) && KeyOf(vs[i].t, h) == KeyOf(vs[0].t, h)
    {
      RowThroughout(digest, q, vs, ups, h, i);
    }
  }

  /** A forward walk goes past a row that stays for good. */
  lemma ForwardNeverRevisits(digest: Digest, q: StoreQuery, v: Visit, v': Visit, ups: seq<Upkeep>, h: Hash)
    requires q.forward && v'.t == UpkeptAll(digest, v.t, ups) && Stays(digest, v.t, ups, h)
    ensures !RevisitedAt(q, v, v', KeyOf(v.t, h))
  {
    if v'.cursor.Some? && v'.cursor.value in v.t {
      var c := v'.cursor.value;
      if Stays(digest, v.t, ups, c) {
        StaysTheSame(digest, v.t, ups, c);
      } else {
        StayingIsNewer(digest, v.t, ups, c, h);
      }
    }
  }

  /** While messages are stored and retention runs between pages, in any number and
      order, a forward walk shows a matching row that stays at most once: exactly once
      if no cursor's row was deleted and came back at or past it, and else never. */
  lemma ForwardPagingUnderUpkeep(digest: Digest, q: StoreQuery, vs: seq<Visit>, ups: seq<seq<Upkeep>>, h: Hash)
    requires IsWalk(q, vs) && Fit(vs) && Evolves(digest, vs, ups) && q.forward && q.pageSize != MAX_PAGE_SIZE
    requires StaysThroughout(digest, q, vs, ups, h) && PastStart(q, vs[0], KeyOf(vs[0].t, h))
    ensures Times(Shown(q, vs), h) == if NeverSkipped(q, vs, KeyOf(vs[0].t, h)) then 1 else 0
  {
    var k := KeyOf(vs[0].t, h);
    StayingRowStaysPut(digest, q, vs, ups, h);
    forall i | 0 < i < |vs| ensures !RevisitedAt(q, vs[i - 1], vs[i], k) {
      assert KeyOf(vs[i - 1].t, h) == k && Stays(digest, vs[i - 1].t, ups[i], h);
      ForwardNeverRevisits(digest, q, vs[i - 1], vs[i], ups[i], h);
    }
    NoRevisits(q, vs, k);
    NoSkips(q, vs, k);
    PagingExactlyOnce(q, vs, h, k);
  }

  // ----- Sort times that do not depend on when a message is received

  /** Every row has the sort time given for its hash. */
  ghost predicate Timed(time: Hash -> int, t: Table) {
    forall h :: h in t ==> t[h].sortTime == time(h)
  }

  /** Every message put gets the sort time given for its hash: it carries that
      timestamp, or is always received at that time. */
  ghost predicate PutsTimed(digest: Digest, time: Hash -> int, ups: seq<Upkeep>) {
    forall i :: 0 <= i < |ups| && ups[i].Put? ==>
      ups[i].message.timestamp.GetOr(ups[i].receiverTime) == time(digest(ups[i].pubsubTopic, ups[i].message))
  }

  lemma {:induction false} UpkeepIsTimed(digest: Digest, time: Hash -> int, t: Table, ups: seq<Upkeep>)
    requires Timed(time, t) && PutsTimed(digest, time, ups)
    ensures Timed(time, UpkeptAll(digest, t, ups))
    decreases |ups|
  {
    if ups != [] {
      assert ups[0].Put? ==>
        ups[0].message.timestamp.GetOr(ups[0].receiverTime) == time(digest(ups[0].pubsubTopic, ups[0].message));
      assert Timed(time, Upkept(digest, t, ups[0]));
      forall i | 0 <= i < |ups[1..]| && ups[1..][i].Put?
        ensures ups[1..][i].message.timestamp.GetOr(ups[1..][i].receiverTime)
                == time(digest(ups[1..][i].pubsubTopic, ups[1..][i].message))
      {
        assert ups[i + 1].Put?;
      }
      UpkeepIsTimed(digest, time, Upkept(digest, t, ups[0]), ups[1..]);
    }
  }

  lemma {:induction false} WalkIsTimed(
      digest: Digest, time: Hash -> int, vs: seq<Visit>, ups: seq<seq<Upkeep>>, i: nat)
    requires Evolves(digest, vs, ups) && i < |vs| && Timed(time, vs[0].t)
    requires forall j :: 0 <= j < |ups| ==> PutsTimed(digest, time, ups[j])
    ensures Timed(time, vs[i].t)
  {
    if i > 0 {
      WalkIsTimed(digest, time, vs, ups, i - 1);
      UpkeepIsTimed(digest, time, vs[i - 1].t, ups[i]);
    }
  }

  lemma TimedNeverSkips(time: Hash -> int, q: StoreQuery, v: Visit, v': Visit, k: Key)
    requires Timed(time, v.t) && Timed(time, v'.t)
    ensures !SkippedAt(q, v, v', k)
  {
  }

  /** If a message's hash determines its sort time, as when every message carries a
      timestamp, then under any upkeep a forward walk shows every matching row that
      stays exactly once, also when the rows its cursors name are deleted. */
  lemma ForwardPagingWithTimestamps(
      digest: Digest, time: Hash -> int, q: StoreQuery, vs: seq<Visit>, ups: seq<seq<Upkeep>>, h: Hash)
    requires IsWalk(q, vs) && Fit(vs) && Evolves(digest, vs, ups) && q.forward && q.pageSize != MAX_PAGE_SIZE
    requires StaysThroughout(digest, q, vs, ups, h) && PastStart(q, vs[0], KeyOf(vs[0].t, h))
    requires Timed(time, vs[0].t) && forall j :: 0 <= j < |ups| ==> PutsTimed(digest, time, ups[j])
    ensures Times(Shown(q, vs), h) == 1
  {
    var k := KeyOf(vs[0].t, h);
    forall i | 0 < i < |vs| ensures !SkippedAt(q, vs[i - 1], vs[i], k) {
      WalkIsTimed(digest, time, vs, ups, i - 1);
      WalkIsTimed(digest, time, vs, ups, i);
      TimedNeverSkips(time, q, vs[i - 1], vs[i], k);
    }
    ForwardPagingUnderUpkeep(digest, q, vs, ups, h);
  }

  // ----- Retention last before each page

  ghost predicate Part(t: Table, u: Table) {
    forall h :: h in t ==> h in u && t[h] == u[h]
  }

  /** After retention, a forward walk resumes from any cursor, deleted or not. */
  lemma RetentionIsResumable(digest: Digest, t: Table, q: StoreQuery, ups: seq<Upkeep>, c: Hash)
    requires q.forward && c in t && OnlyRetention(ups)
    ensures Resumable(UpkeptAll(digest, t, ups), q, c, KeyOf(t, c))
  {
    var t' := UpkeptAll(digest, t, ups);
    if c in t' {
      RetainedWasThere(digest, t, ups, c);
      StaysTheSame(digest, t, ups, c);
    } else {
      forall k | k in Eligible(t', q) ensures Before(q.forward, KeyOf(t, c), k) {
        RetainedWasThere(digest, t, ups, k.hash);
        StaysTheSame(digest, t, ups, k.hash);
        GoneDidNotStay(digest, t, ups, c);
        StayingIsNewer(digest, t, ups, c, k.hash);
      }
    }
  }

  lemma GoneDidNotStay(digest: Digest, t: Table, ups: seq<Upkeep>, c: Hash)
    requires c !in UpkeptAll(digest, t, ups)
    ensures !Stays(digest, t, ups, c)
  {
    if Stays(digest, t, ups, c) { StaysTheSame(digest, t, ups, c); }
  }

  /** Before each page messages arrive, which makes the table `grown`, and then
      retention runs. */
  ghost predicate RetainedBeforePages(digest: Digest, vs: seq<Visit>, grown: seq<Table>, ups: seq<seq<Upkeep>>) {
    && |ups| == |grown| == |vs|
    && forall i :: 0 < i < |vs| ==> RetainedFrom(digest, vs[i - 1].t, vs[i].t, grown[i], ups[i])
  }

  ghost predicate RetainedFrom(digest: Digest, t: Table, t': Table, grown: Table, ups: seq<Upkeep>) {
    Part(t, grown) && OnlyRetention(ups) && t' == UpkeptAll(digest, grown, ups)
  }

  /** When retention runs last before each page, a forward walk shows rows strictly
      in the order of their places, none that never moves twice, and every matching
      row that stays put exactly once, whatever was deleted. */
  lemma ForwardPagingUnderRetention(
      digest: Digest, q: StoreQuery, vs: seq<Visit>, grown: seq<Table>, ups: seq<seq<Upkeep>>, h: Hash, k: Key)
    requires IsWalk(q, vs) && Fit(vs) && q.forward && q.pageSize != MAX_PAGE_SIZE
    requires RetainedBeforePages(digest, vs, grown, ups)
    ensures Ascending(q.forward, ShownKeys(q, vs))
    ensures NeverMoves(vs, h, k) && k.hash == h ==> Times(Shown(q, vs), h) <= 1
    ensures StaysPut(q, vs, h, k) && PastStart(q, vs[0], k) ==> Times(Shown(q, vs), h) == 1
  {
    forall i | 0 < i < |vs| && vs[i].cursor.Some? && vs[i].cursor.value in vs[i - 1].t
      ensures Resumable(vs[i].t, q, vs[i].cursor.value, KeyOf(vs[i - 1].t, vs[i].cursor.value))
    {
      assert RetainedFrom(digest, vs[i - 1].t, vs[i].t, grown[i], ups[i]);
      RetentionIsResumable(digest, grown[i], q, ups[i], vs[i].cursor.value);
    }
    ResumablePaging(q, vs, h, k);
  }

  // ----- Only insertions between pages

  ghost predicate AllPuts(ups: seq<seq<Upkeep>>) {
    forall i :: 0 <= i < |ups| ==> OnlyPuts(ups[i])
  }

  lemma GrownContains(digest: Digest, t: Table, ups: seq<Upkeep>)
    requires OnlyPuts(ups)
    ensures Part(t, UpkeptAll(digest, t, ups))
  {
    forall h | h in t ensures h in UpkeptAll(digest, t, ups) && UpkeptAll(digest, t, ups)[h] == t[h] {
      PutsKeepRows(digest, t, ups, h);
      StaysTheSame(digest, t, ups, h);
    }
  }

  lemma {:induction false} GrownTablesContain(digest: Digest, vs: seq<Visit>, ups: seq<seq<Upkeep>>, i: nat, j: nat)
    requires Evolves(digest, vs, ups) && AllPuts(ups) && i <= j < |vs|
    ensures Part(vs[i].t, vs[j].t)
  {
    if i < j {
      GrownTablesContain(digest, vs, ups, i, j - 1);
      GrownContains(digest, vs[j - 1].t, ups[j]);
    }
  }

  lemma KeptCursorIsResumable(t: Table, t': Table, q: StoreQuery, c: Hash)
    requires Part(t, t') && c in t
    ensures Resumable(t', q, c, KeyOf(t, c))
  {
  }

  lemma GrowthIsResumable(digest: Digest, q: StoreQuery, vs: seq<Visit>, ups: seq<seq<Upkeep>>)
    requires Evolves(digest, vs, ups) && AllPuts(ups)
    ensures AlwaysResumable(q, vs)
  {
    forall i | 0 < i < |vs| && vs[i].cursor.Some? && vs[i].cursor.value in vs[i - 1].t
      ensures Resumable(vs[i].t, q, vs[i].cursor.value, KeyOf(vs[i - 1].t, vs[i].cursor.value))
    {
      GrownTablesContain(digest, vs, ups, i - 1, i);
      KeptCursorIsResumable(vs[i - 1].t, vs[i].t, q, vs[i].cursor.value);
    }
  }

  lemma GrownRowNeverMoves(digest: Digest, vs: seq<Visit>, ups: seq<seq<Upkeep>>, h: Hash)
    requires Evolves(digest, vs, ups) && AllPuts(ups) && vs != [] && h in vs[|vs| - 1].t
    ensures NeverMoves(vs, h, KeyOf(vs[|vs| - 1].t, h))
  {
    forall i | 0 <= i < |vs| && h in vs[i].t ensures KeyOf(vs[i].t, h) == KeyOf(vs[|vs| - 1].t, h) {
      GrownTablesContain(digest, vs, ups, i, |vs| - 1);
    }
  }

  lemma EarlyRowStays(digest: Digest, q: StoreQuery, vs: seq<Visit>, ups: seq<seq<Upkeep>>, h: Hash)
    requires vs != [] && Evolves(digest, vs, ups) && AllPuts(ups) && h in vs[0].t && Filter(q, h, vs[0].t[h])
    ensures StaysPut(q, vs, h, KeyOf(vs[0].t, h))
  {
    forall i | 0 <= i < |vs|
      ensures h in vs[i].t && Filter(q, h, vs[i].t[h]) && KeyOf(vs[i].t, h) == KeyOf(vs[0].t, h)
    {
      GrownTablesContain(digest, vs, ups, 0, i);
    }
  }

  lemma ShownIsStored(digest: Digest, q: StoreQuery, vs: seq<Visit>, ups: seq<seq<Upkeep>>, m: StoredMessage)
    requires vs != [] && Fit(vs) && Evolves(digest, vs, ups) && AllPuts(ups) && m in Shown(q, vs)
    ensures var last := vs[|vs| - 1].t;
      m.hash in last && Filter(q, m.hash, last[m.hash]) && m == Stored(last, m.hash, q.includeData)
  {
    var i := ShownWasRead(q, vs, m);
    GrownTablesContain(digest, vs, ups, i, |vs| - 1);
  }

  /** While arbitrary messages arrive between pages, in either direction: every
      matching row stored before the first page is shown exactly once, and every
      message shown is that of one matching row, shown once. */
  lemma PagingUnderPuts(digest: Digest, q: StoreQuery, vs: seq<Visit>, ups: seq<seq<Upkeep>>, h: Hash)
    requires IsWalk(q, vs) && Fit(vs) && vs[0].cursor == None && Evolves(digest, vs, ups) && AllPuts(ups)
    requires q.pageSize != MAX_PAGE_SIZE
    ensures h in vs[0].t && Filter(q, h, vs[0].t[h]) ==> Times(Shown(q, vs), h) == 1
    ensures forall m :: m in Shown(q, vs) && m.hash == h ==>
              var last := vs[|vs| - 1].t;
              && Times(Shown(q, vs), h) == 1
              && h in last && Filter(q, h, last[h]) && m == Stored(last, h, q.includeData)
  {
    var last := vs[|vs| - 1].t;
    GrowthIsResumable(digest, q, vs, ups);
    ShownIsCounted(Shown(q, vs), h);
    forall m | m in Shown(q, vs) && m.hash == h
      ensures Times(Shown(q, vs), h) == 1
      ensures h in last && Filter(q, h, last[h]) && m == Stored(last, h, q.includeData)
    {
      ShownIsStored(digest, q, vs, ups, m);
      GrownRowNeverMoves(digest, vs, ups, h);
      ResumablePaging(q, vs, h, KeyOf(last, h));
    }
    if h in vs[0].t && Filter(q, h, vs[0].t[h]) {
      EarlyRowStays(digest, q, vs, ups, h);
      ResumablePaging(q, vs, h, KeyOf(vs[0].t, h));
    }
  }
}
