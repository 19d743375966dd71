/**
  Two walks on which following the cursor does not show every row exactly once: a
  backward one that repeats a row and a forward one that misses a row.
 */
module PagingExamples {
  import opened Common
  import opened StoreOrder
  import opened KeysetWalk
  import opened Store
  import opened StorePaging
  import opened ChangingStore
  import opened StoreUpkeep

  function SampleHash(n: Byte): Hash {
    seq(32, i => n)
  }

  lemma SampleHashesDiffer()
    ensures SampleHash(1) != SampleHash(2) && SampleHash(1) != SampleHash(3) && SampleHash(2) != SampleHash(3)
  {
    assert SampleHash(1)[0] == 1 && SampleHash(2)[0] == 2 && SampleHash(3)[0] == 3;
  }

  function SampleMessage(timestamp: Option<int>): WakuMessage {
    WakuMessage([], "", None, timestamp, None, None, None)
  }

  function SampleRow(timestamp: Option<int>, receiverTime: int): Row {
    Row("", SampleMessage(timestamp), receiverTime, timestamp.GetOr(receiverTime))
  }

  lemma OrderedIs(t: Table, q: StoreQuery, keys: seq<Key>)
    requires Ascending(q.forward, keys)
    requires forall k :: k in keys <==> k in Eligible(t, q) && PastCursor(q.forward, CursorKey(t, q.cursor), k)
    ensures Ordered(t, q) == keys
  {
    OrderedAscends(t, q);
    forall k ensures k in keys <==> k in Ordered(t, q) {
      SelectedExactly(t, q, k);
    }
    AscendingIsUnique(q.forward, Ordered(t, q), keys);
  }

  lemma WalkOfTwo(q: StoreQuery, vs: seq<Visit>)
    requires |vs| == 2 && Resumes(q, vs[0], vs[1]) && PageOf(vs[1].t, At(q, vs[1])).nextCursor == None
    ensures IsWalk(q, vs)
  {
  }

  // ----- A row shown twice

  const BACKWARD := StoreQuery(None, [], None, None, [], true, 2, false, None)

  /** Rows at times 1, 2 and 3. */
  function ThreeRows(): Table {
    map[SampleHash(1) := SampleRow(Some(1), 1),
        SampleHash(2) := SampleRow(Some(2), 2),
        SampleHash(3) := SampleRow(Some(3), 3)]
  }

  lemma BackwardFirstKeys()
    ensures Ordered(ThreeRows(), BACKWARD)
            == [Key(3, SampleHash(3)), Key(2, SampleHash(2)), Key(1, SampleHash(1))]
  {
    var t, q := ThreeRows(), BACKWARD;
    SampleHashesDiffer();
    var keys := [Key(3, SampleHash(3)), Key(2, SampleHash(2)), Key(1, SampleHash(1))];
    forall k ensures k in keys <==> k in Eligible(t, q) {
      if k in keys { assert k == KeyOf(t, k.hash); }
    }
    OrderedIs(t, q, keys);
  }

  lemma BackwardFirstPage()
    ensures PageOf(ThreeRows(), BACKWARD).nextCursor == Some(SampleHash(2))
    ensures |ThreeRows()| <= 3
  {
    var t, q := ThreeRows(), BACKWARD;
    assert |t.Keys| <= 3 by { assert t.Keys == {SampleHash(1), SampleHash(2), SampleHash(3)}; }
    PageShape(t, q);
    BackwardFirstKeys();
  }

  lemma BackwardSecondPage()
    ensures PageOf(Recent(ThreeRows(), 3), BACKWARD.(cursor := Some(SampleHash(2)))).nextCursor == None
    ensures |Recent(ThreeRows(), 3)| <= 1
  {
    var t, q := Recent(ThreeRows(), 3), BACKWARD.(cursor := Some(SampleHash(2)));
    SampleHashesDiffer();
    var keys := [Key(3, SampleHash(3))];
    forall k ensures k in keys <==> k in Eligible(t, q) {
      if k in keys { assert k == KeyOf(t, k.hash); }
    }
    OrderedIs(t, q, keys);
    assert t.Keys == {SampleHash(3)};
    PageShape(t, q);
  }

  ghost function BackwardWalkOfTwo(): (vs: seq<Visit>)
    ensures |vs| == 2
  {
    [Visit(ThreeRows(), None), Visit(Recent(ThreeRows(), 3), Some(SampleHash(2)))]
  }

  lemma BackwardIsWalk()
    ensures IsWalk(BACKWARD, BackwardWalkOfTwo()) && Fit(BackwardWalkOfTwo())
  {
    var vs := BackwardWalkOfTwo();
    BackwardFirstPage();
    BackwardSecondPage();
    assert At(BACKWARD, vs[0]) == BACKWARD;
    WalkOfTwo(BACKWARD, vs);
  }

  lemma BackwardRevisits()
    ensures StaysPut(BACKWARD, BackwardWalkOfTwo(), SampleHash(3), Key(3, SampleHash(3)))
    ensures SkipsOf(BACKWARD, BackwardWalkOfTwo(), Key(3, SampleHash(3))) == 0
    ensures RevisitsOf(BACKWARD, BackwardWalkOfTwo(), Key(3, SampleHash(3))) == 1
  {
    SampleHashesDiffer();
    var vs := BackwardWalkOfTwo();
    assert vs[1].cursor.value !in vs[1].t && |vs[1..]| == 1;
  }

  /** Backward, the cursor's row is older than the rows shown, so age retention can
      delete it and leave them: here the row at time 3 is shown on both pages. */
  lemma BackwardWalkRepeats() returns (vs: seq<Visit>, h: Hash, k: Key)
    ensures IsWalk(BACKWARD, vs) && Fit(vs) && |vs| == 2 && vs[0].cursor == None
    ensures vs[1].t == Recent(vs[0].t, 3) && StaysPut(BACKWARD, vs, h, k)
    ensures Times(Shown(BACKWARD, vs), h) == 2
  {
    vs, h, k := BackwardWalkOfTwo(), SampleHash(3), Key(3, SampleHash(3));
    BackwardIsWalk();
    BackwardRevisits();
    PagingExactlyOnce(BACKWARD, vs, h, k);
  }

  // ----- A row never shown

  const FORWARD := StoreQuery(None, [], None, None, [], true, 1, true, None)

  /** Hash 1 for the message without a timestamp, hash 2 for others: like the
      message hash, it does not depend on the receiver time. */
  function SampleDigest(pubsubTopic: string, message: WakuMessage): Hash {
    if message.timestamp == None then SampleHash(1) else SampleHash(2)
  }

  /** A message without a timestamp and one with timestamp 2. */
  function TwoRows(received: int): Table {
    map[SampleHash(1) := SampleRow(None, received), SampleHash(2) := SampleRow(Some(2), 2)]
  }

  const EXPIRED_AND_BACK := [DeleteOlderThan(2), Put("", SampleMessage(None), 3)]

  lemma TwoRowsChange()
    ensures UpkeptAll(SampleDigest, TwoRows(1), EXPIRED_AND_BACK) == TwoRows(3)
    ensures Stays(SampleDigest, TwoRows(1), EXPIRED_AND_BACK, SampleHash(2))
  {
    SampleHashesDiffer();
    var ups, t := EXPIRED_AND_BACK, TwoRows(1);
    var t' := Upkept(SampleDigest, t, ups[0]);
    assert t' == map[SampleHash(2) := SampleRow(Some(2), 2)];
    assert ups[1..] == [ups[1]] && ups[1..][1..] == [];
    assert Upkept(SampleDigest, t', ups[1]) == TwoRows(3);
    assert UpkeptAll(SampleDigest, t', ups[1..]) == UpkeptAll(SampleDigest, TwoRows(3), []);
    assert Stays(SampleDigest, TwoRows(3), [], SampleHash(2));
    assert Stays(SampleDigest, t', ups[1..], SampleHash(2));
  }

  lemma ForwardFirstPage()
    ensures PageOf(TwoRows(1), FORWARD).nextCursor == Some(SampleHash(1))
    ensures |TwoRows(1)| <= 2
  {
    var t, q := TwoRows(1), FORWARD;
    SampleHashesDiffer();
    var keys := [Key(1, SampleHash(1)), Key(2, SampleHash(2))];
    forall k ensures k in keys <==> k in Eligible(t, q) {
      if k in keys { assert k == KeyOf(t, k.hash); }
    }
    OrderedIs(t, q, keys);
    assert |t.Keys| <= 2 by { assert t.Keys == {SampleHash(1), SampleHash(2)}; }
    PageShape(t, q);
  }

  lemma ForwardSecondPage()
    ensures PageOf(TwoRows(3), FORWARD.(cursor := Some(SampleHash(1)))).nextCursor == None
    ensures |TwoRows(3)| <= 2
  {
    var t, q := TwoRows(3), FORWARD.(cursor := Some(SampleHash(1)));
    SampleHashesDiffer();
    forall k | k in Eligible(t, q) ensures !Before(true, Key(3, SampleHash(1)), k) {
      Total(true, k, k);
    }
    OrderedIs(t, q, []);
    assert |t.Keys| <= 2 by { assert t.Keys == {SampleHash(1), SampleHash(2)}; }
    PageShape(t, q);
  }

  ghost function ForwardWalkOfTwo(): (vs: seq<Visit>)
    ensures |vs| == 2
  {
    [Visit(TwoRows(1), None), Visit(TwoRows(3), Some(SampleHash(1)))]
  }

  lemma ForwardIsWalk()
    ensures IsWalk(FORWARD, ForwardWalkOfTwo()) && Fit(ForwardWalkOfTwo())
  {
    var vs := ForwardWalkOfTwo();
    ForwardFirstPage();
    ForwardSecondPage();
    assert At(FORWARD, vs[0]) == FORWARD;
    WalkOfTwo(FORWARD, vs);
  }

  lemma ForwardSkips()
    ensures StaysPut(FORWARD, ForwardWalkOfTwo(), SampleHash(2), Key(2, SampleHash(2)))
    ensures SkipsOf(FORWARD, ForwardWalkOfTwo(), Key(2, SampleHash(2))) == 1
    ensures RevisitsOf(FORWARD, ForwardWalkOfTwo(), Key(2, SampleHash(2))) == 0
  {
    SampleHashesDiffer();
    var vs := ForwardWalkOfTwo();
    assert |vs[1..]| == 1;
  }

  lemma ForwardEvolves()
    ensures var vs, ups := ForwardWalkOfTwo(), [[], EXPIRED_AND_BACK];
      Evolves(SampleDigest, vs, ups) && StaysThroughout(SampleDigest, FORWARD, vs, ups, SampleHash(2))
  {
    TwoRowsChange();
  }

  lemma ForwardShowsNothing()
    ensures Times(Shown(FORWARD, ForwardWalkOfTwo()), SampleHash(2)) == 0
  {
    ForwardIsWalk();
    ForwardSkips();
    PagingExactlyOnce(FORWARD, ForwardWalkOfTwo(), SampleHash(2), Key(2, SampleHash(2)));
  }

  /** Forward, a cursor's message without a timestamp can expire and be received
      again; it then comes back later in the order, and rows in between that were
      there all along are never shown. */
  lemma ForwardWalkMisses() returns (vs: seq<Visit>, ups: seq<seq<Upkeep>>, h: Hash)
    ensures IsWalk(FORWARD, vs) && Fit(vs) && |vs| == 2 && vs[0].cursor == None
    ensures Evolves(SampleDigest, vs, ups) && StaysThroughout(SampleDigest, FORWARD, vs, ups, h)
    ensures Times(Shown(FORWARD, vs), h) == 0
  {
    vs, ups, h := ForwardWalkOfTwo(), [[], EXPIRED_AND_BACK], SampleHash(2);
    ForwardEvolves();
    ForwardIsWalk();
    ForwardShowsNothing();
  }
}
