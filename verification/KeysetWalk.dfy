/**
  Keyset pagination in the abstract: what follows when each page is a slice of
  the keys present at its moment past some cursor, which may or may not be where
  the page before ended. Nothing here knows how a page is computed.
 */
module KeysetWalk {
  import opened Common
  import opened StoreOrder

  predicate PastCursor(forward: bool, cursor: Option<Key>, k: Key) {
    cursor.Some? ==> Before(forward, cursor.value, k)
  }

  /** A page request: the keys present, the cursor, and the keys shown. */
  datatype Moment = Moment(present: set<Key>, cursor: Option<Key>, keys: seq<Key>)

  /** The keys shown are an ordered part of those present past the cursor that
      misses nothing up to its last key, and nothing at all when it is final. */
  ghost predicate Slice(forward: bool, m: Moment, final: bool) {
    && Ascending(forward, m.keys)
    && (forall k :: k in m.keys ==> k in m.present && PastCursor(forward, m.cursor, k))
    && (!final ==> m.keys != [])
    && (forall k :: k in m.present && PastCursor(forward, m.cursor, k) ==>
          k in m.keys || (!final && Before(forward, m.keys[|m.keys| - 1], k)))
  }

  /** A prefix of the ordered keys is a slice. */
  lemma PrefixIsSlice(forward: bool, m: Moment, all: seq<Key>, final: bool)
    requires Ascending(forward, all) && m.keys <= all && (if final then m.keys == all else m.keys != [])
    requires forall k :: k in all <==> k in m.present && PastCursor(forward, m.cursor, k)
    ensures Slice(forward, m, final)
  {
    var n := |m.keys|;
    assert all == m.keys + all[n..];
    forall k | k in all && !final ensures k in m.keys || Before(forward, all[n - 1], k) {
      SplitAt(forward, all, n, k);
    }
  }

  function Last(m: Moment): Key
    requires m.keys != []
  {
    m.keys[|m.keys| - 1]
  }

  predicate EndsBefore(forward: bool, m: Moment, k: Key) {
    m.keys != [] && Before(forward, Last(m), k)
  }

  /** One slice per moment; each may resume from anywhere. */
  ghost predicate Slices(forward: bool, ms: seq<Moment>) {
    ms != [] && forall i :: 0 <= i < |ms| ==> Slice(forward, ms[i], i == |ms| - 1)
  }

  lemma SlicesTail(forward: bool, ms: seq<Moment>)
    requires Slices(forward, ms) && |ms| > 1
    ensures Slices(forward, ms[1..]) && ms[0].keys != []
  {
    assert Slice(forward, ms[0], 0 == |ms| - 1);
    forall i | 0 <= i < |ms[1..]| ensures Slice(forward, ms[1..][i], i == |ms[1..]| - 1) {
      assert Slice(forward, ms[i + 1], i + 1 == |ms| - 1);
    }
  }

  /** What a page can show lies past what the page before ended on. */
  ghost predicate SafeLink(forward: bool, m: Moment, m': Moment) {
    forall k :: k in m'.present && PastCursor(forward, m'.cursor, k) ==> EndsBefore(forward, m, k)
  }

  ghost predicate SafeLinks(forward: bool, ms: seq<Moment>) {
    forall i :: 0 < i < |ms| ==> SafeLink(forward, ms[i - 1], ms[i])
  }

  lemma SafeLinksTail(forward: bool, ms: seq<Moment>)
    requires |ms| > 1
    ensures SafeLinks(forward, ms) <==> SafeLink(forward, ms[0], ms[1]) && SafeLinks(forward, ms[1..])
  {
    if SafeLinks(forward, ms) {
      forall i | 0 < i < |ms[1..]| ensures SafeLink(forward, ms[1..][i - 1], ms[1..][i]) {
        assert SafeLink(forward, ms[(i + 1) - 1], ms[i + 1]);
      }
    }
    if SafeLink(forward, ms[0], ms[1]) && SafeLinks(forward, ms[1..]) {
      forall i | 0 < i < |ms| ensures SafeLink(forward, ms[i - 1], ms[i]) {
        if i > 1 { assert SafeLink(forward, ms[1..][(i - 1) - 1], ms[1..][i - 1]); }
      }
    }
  }

  ghost function Flatten(ms: seq<Moment>): seq<Key> {
    if ms == [] then [] else ms[0].keys + Flatten(ms[1..])
  }

  lemma JoinAscending(forward: bool, xs: seq<Key>, ys: seq<Key>)
    requires Ascending(forward, xs) && Ascending(forward, ys)
    requires xs != [] && forall k :: k in ys ==> Before(forward, xs[|xs| - 1], k)
    ensures Ascending(forward, xs + ys)
  {
    var zs := xs + ys;
    forall i, j | 0 <= i < j < |zs| ensures Before(forward, zs[i], zs[j]) {
      if i < |xs| <= j {
        assert zs[j] == ys[j - |xs|] && zs[j] in ys;
        if i < |xs| - 1 { Transitive(forward, xs[i], xs[|xs| - 1], zs[j]); }
      } else if |xs| <= i {
        assert zs[i] == ys[i - |xs|] && zs[j] == ys[j - |xs|];
      }
    }
  }

  /** All keys of a page are past the last of the page before. */
  lemma SafePageIsPast(forward: bool, m: Moment, m': Moment, final: bool)
    requires m.keys != [] && Slice(forward, m', final) && SafeLink(forward, m, m')
    ensures forall k :: k in m'.keys ==> Before(forward, Last(m), k)
  {
  }

  /** What follows a bound on the first page stays past it. */
  ghost predicate AllPast(forward: bool, a: Key, keys: seq<Key>) {
    forall k :: k in keys ==> Before(forward, a, k)
  }

  lemma {:induction false} SafeLinksAscend(forward: bool, ms: seq<Moment>, a: Key)
    requires Slices(forward, ms) && SafeLinks(forward, ms)
    ensures Ascending(forward, Flatten(ms))
    ensures AllPast(forward, a, ms[0].keys) ==> AllPast(forward, a, Flatten(ms))
  {
    var rest := Flatten(ms[1..]);
    assert Slice(forward, ms[0], 0 == |ms| - 1);
    if |ms| == 1 {
      assert rest == [];
    } else {
      SlicesTail(forward, ms);
      SafeLinksTail(forward, ms);
      var last := Last(ms[0]);
      SafePageIsPast(forward, ms[0], ms[1], 1 == |ms| - 1);
      SafeLinksAscend(forward, ms[1..], last);
      JoinAscending(forward, ms[0].keys, rest);
      forall k | k in rest && AllPast(forward, a, ms[0].keys) ensures Before(forward, a, k) {
        Transitive(forward, a, last, k);
      }
    }
  }

  /** A page that can show a key not past the page before does show one. */
  lemma UnsafeLinkShows(forward: bool, m: Moment, m': Moment, final: bool, k: Key) returns (shown: Key)
    requires m.keys != [] && Slice(forward, m', final)
    requires k in m'.present && PastCursor(forward, m'.cursor, k) && !Before(forward, Last(m), k)
    ensures shown in m'.keys && !Before(forward, Last(m), shown)
  {
    if k in m'.keys {
      shown := k;
    } else {
      shown := Last(m');
      if Before(forward, Last(m), shown) { Transitive(forward, Last(m), shown, k); }
    }
  }

  lemma NotAscending(forward: bool, xs: seq<Key>, ys: seq<Key>, k: Key)
    requires xs != [] && k in ys && !Before(forward, xs[|xs| - 1], k)
    ensures !Ascending(forward, xs + ys)
  {
    var j :| 0 <= j < |ys| && ys[j] == k;
    var zs := xs + ys;
    assert zs[|xs| - 1] == xs[|xs| - 1] && zs[|xs| + j] == k;
  }

  lemma SuffixAscends(forward: bool, xs: seq<Key>, ys: seq<Key>)
    requires Ascending(forward, xs + ys)
    ensures Ascending(forward, ys)
  {
    forall i, j | 0 <= i < j < |ys| ensures Before(forward, ys[i], ys[j]) {
      assert (xs + ys)[|xs| + i] == ys[i] && (xs + ys)[|xs| + j] == ys[j];
    }
  }

  lemma {:induction false} AscendingIsSafe(forward: bool, ms: seq<Moment>)
    requires Slices(forward, ms) && Ascending(forward, Flatten(ms))
    ensures SafeLinks(forward, ms)
  {
    if |ms| > 1 {
      var rest := Flatten(ms[1..]);
      SlicesTail(forward, ms);
      SafeLinksTail(forward, ms);
      SuffixAscends(forward, ms[0].keys, rest);
      AscendingIsSafe(forward, ms[1..]);
      if !SafeLink(forward, ms[0], ms[1]) {
        var k :| k in ms[1].present && PastCursor(forward, ms[1].cursor, k) && !EndsBefore(forward, ms[0], k);
        var shown := UnsafeLinkShows(forward, ms[0], ms[1], 1 == |ms| - 1, k);
        assert shown in rest;
        NotAscending(forward, ms[0].keys, rest, shown);
      }
    }
  }

  /** Pages put together come in strictly increasing walking order exactly when no
      page can show a key that is not past the page before. */
  lemma AscendsExactly(forward: bool, ms: seq<Moment>)
    requires Slices(forward, ms)
    ensures Ascending(forward, Flatten(ms)) <==> SafeLinks(forward, ms)
    ensures SafeLinks(forward, ms) ==> forall k :: k in Flatten(ms) ==> PastCursor(forward, ms[0].cursor, k)
  {
    if Ascending(forward, Flatten(ms)) { AscendingIsSafe(forward, ms); }
    if SafeLinks(forward, ms) {
      assert Slice(forward, ms[0], 0 == |ms| - 1);
      var c := ms[0].cursor;
      SafeLinksAscend(forward, ms, if c.Some? then c.value else Key(0, seq(32, i => 0)));
    }
  }

  /** Only keys of some moment are shown. */
  lemma {:induction false} FlattenIsSound(forward: bool, ms: seq<Moment>, k: Key) returns (i: nat)
    requires Slices(forward, ms) && k in Flatten(ms)
    ensures i < |ms| && k in ms[i].present
  {
    i := 0;
    assert Slice(forward, ms[0], 0 == |ms| - 1);
    if k !in ms[0].keys {
      SlicesTail(forward, ms);
      i := FlattenIsSound(forward, ms[1..], k);
      i := i + 1;
    }
  }

  ghost predicate PresentThroughout(ms: seq<Moment>, k: Key) {
    forall i :: 0 <= i < |ms| ==> k in ms[i].present
  }

  lemma {:induction false} AscendingHasOnce(forward: bool, xs: seq<Key>, k: Key)
    requires Ascending(forward, xs)
    ensures multiset(xs)[k] == if k in xs then 1 else 0
  {
    if xs != [] {
      TailMembers(forward, xs, k);
      AscendingHasOnce(forward, xs[1..], k);
      assert xs == [xs[0]] + xs[1..];
    }
  }

  /** How one page treats a key that is there: past the cursor it is shown or lies
      past the end of the page, and otherwise it does neither. */
  lemma OnePage(forward: bool, m: Moment, final: bool, k: Key)
    requires Slice(forward, m, final) && k in m.present
    ensures multiset(m.keys)[k] == if k in m.keys then 1 else 0
    ensures PastCursor(forward, m.cursor, k) && final ==> k in m.keys
    ensures PastCursor(forward, m.cursor, k) && !final ==> (k in m.keys <==> !EndsBefore(forward, m, k))
    ensures !PastCursor(forward, m.cursor, k) ==> k !in m.keys && !EndsBefore(forward, m, k)
  {
    AscendingHasOnce(forward, m.keys, k);
    if m.keys != [] {
      var last := Last(m);
      assert last in m.keys;
      Total(forward, last, k);
      if k in m.keys && k != last {
        var i :| 0 <= i < |m.keys| && m.keys[i] == k;
        assert Before(forward, m.keys[i], m.keys[|m.keys| - 1]);
      }
      if !PastCursor(forward, m.cursor, k) && Before(forward, last, k) {
        Transitive(forward, m.cursor.value, last, k);
      }
    }
  }

  /** The key was still to come, but the next page resumes at or past it. */
  predicate Skipped(forward: bool, m: Moment, m': Moment, k: Key) {
    EndsBefore(forward, m, k) && !PastCursor(forward, m'.cursor, k)
  }

  /** The key was behind, but the next page resumes before it. */
  predicate Revisited(forward: bool, m: Moment, m': Moment, k: Key) {
    !EndsBefore(forward, m, k) && PastCursor(forward, m'.cursor, k)
  }

  function Skips(forward: bool, ms: seq<Moment>, k: Key): nat {
    if |ms| < 2 then 0 else (if Skipped(forward, ms[0], ms[1], k) then 1 else 0) + Skips(forward, ms[1..], k)
  }

  function Revisits(forward: bool, ms: seq<Moment>, k: Key): nat {
    if |ms| < 2 then 0 else (if Revisited(forward, ms[0], ms[1], k) then 1 else 0) + Revisits(forward, ms[1..], k)
  }

  /** How often a walk shows a key that is there throughout, wherever each page
      resumes: once if it is past the starting cursor, once more for every time it is
      revisited, and once less for every time it is skipped. */
  lemma {:induction false} ShownTimes(forward: bool, ms: seq<Moment>, k: Key)
    requires Slices(forward, ms) && PresentThroughout(ms, k)
    ensures multiset(Flatten(ms))[k] + Skips(forward, ms, k)
            == (if PastCursor(forward, ms[0].cursor, k) then 1 else 0) + Revisits(forward, ms, k)
  {
    assert Slice(forward, ms[0], 0 == |ms| - 1) && k in ms[0].present;
    OnePage(forward, ms[0], 0 == |ms| - 1, k);
    if |ms| == 1 {
      assert Flatten(ms) == ms[0].keys;
    } else {
      SlicesTail(forward, ms);
      ShownTimes(forward, ms[1..], k);
      assert multiset(Flatten(ms))[k] == multiset(ms[0].keys)[k] + multiset(Flatten(ms[1..]))[k];
    }
  }
}
