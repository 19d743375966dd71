/** Retention of stored messages by age and by capacity. */
module Retention {
  import opened Common
  import opened StoreOrder
  import opened Store

  /** The keys of the rows more recent than k. */
  function Newer(t: Table, k: Key): set<Key> {
    set j | j in KeysFrom(t) && Less(k, j)
  }

  /** In a strictly descending list, the elements before a position are exactly
      the greater ones. */
  lemma NewerByPosition(xs: seq<Key>, s: set<Key>, i: nat)
    requires Ascending(false, xs) && (forall k :: k in xs <==> k in s) && i < |xs|
    ensures |set j | j in s && Less(xs[i], j)| == i
  {
    var newer := set j | j in s && Less(xs[i], j);
    forall k ensures k in newer <==> k in xs[..i] {
      Total(false, xs[i], xs[i]);
      if k in newer {
        var n :| 0 <= n < |xs| && xs[n] == k;
        Total(false, xs[i], k);
      }
      if k in xs[..i] {
        var n :| 0 <= n < i && xs[n] == k;
        assert Before(false, xs[n], xs[i]);
      }
    }
    AscendingHasSize(false, xs[..i], newer);
  }

  lemma {:induction false} AscendingHasSize(forward: bool, xs: seq<Key>, s: set<Key>)
    requires Ascending(forward, xs) && forall k :: k in xs <==> k in s
    ensures |xs| == |s|
  {
    if xs == [] {
      assert s == {};
    } else {
      forall k ensures k in xs[1..] <==> k in s - {xs[0]} {
        TailMembers(forward, xs, k);
      }
      AscendingHasSize(forward, xs[1..], s - {xs[0]});
      assert xs[0] in s;
    }
  }

  /** Capacity keeps a row exactly when fewer than the offset are more recent. */
  lemma KeptByRank(t: Table, max: U64, h: Hash)
    requires h in t
    ensures h in Capped(t, max) <==> |Newer(t, KeyOf(t, h))| < Offset(max)
  {
    var xs, k := Sorted(false, KeysFrom(t)), KeyOf(t, h);
    SortedIsSorted(false, KeysFrom(t));
    assert k in KeysFrom(t);
    var i :| 0 <= i < |xs| && xs[i] == k;
    NewerByPosition(xs, KeysFrom(t), i);
    assert Newer(t, k) == set j | j in KeysFrom(t) && Less(xs[i], j);
    PositionInSuffix(xs, i, Offset(max));
  }

  lemma PositionInSuffix(xs: seq<Key>, i: nat, n: nat)
    requires Ascending(false, xs) && i < |xs|
    ensures n < |xs| ==> (xs[i] in xs[n..] <==> i >= n)
  {
    if n < |xs| {
      if i >= n { assert xs[n..][i - n] == xs[i]; }
      if xs[i] in xs[n..] {
        var j :| 0 <= j < |xs[n..]| && xs[n..][j] == xs[i];
        Total(false, xs[i], xs[i]);
        assert xs[n + j] == xs[i];
      }
    }
  }

  lemma RecentKeepsRanks(t: Table, cutoff: int, h: Hash)
    requires h in t && t[h].sortTime >= cutoff
    ensures Newer(Recent(t, cutoff), KeyOf(t, h)) == Newer(t, KeyOf(t, h))
  {
    var r, k := Recent(t, cutoff), KeyOf(t, h);
    forall j ensures j in Newer(r, k) <==> j in Newer(t, k) {
      if j in Newer(t, k) { assert j == KeyOf(r, j.hash); }
      if j in Newer(r, k) { assert j == KeyOf(t, j.hash); }
    }
  }

  /** Age and capacity retention commute: a row survives both, in either order,
      exactly when it is young enough and fewer than `max` rows are more recent. */
  lemma RetentionCommutes(t: Table, cutoff: int, max: U64)
    ensures Capped(Recent(t, cutoff), max) == Recent(Capped(t, max), cutoff)
    ensures forall h :: h in Capped(Recent(t, cutoff), max)
              <==> h in t && t[h].sortTime >= cutoff && |Newer(t, KeyOf(t, h))| < Offset(max)
  {
    var both := Capped(Recent(t, cutoff), max);
    forall h ensures h in both <==> h in t && t[h].sortTime >= cutoff && |Newer(t, KeyOf(t, h))| < Offset(max) {
      if h in Recent(t, cutoff) {
        RecentKeepsRanks(t, cutoff, h);
        KeptByRank(Recent(t, cutoff), max, h);
      }
    }
    forall h ensures h in both <==> h in Recent(Capped(t, max), cutoff) {
      if h in t { KeptByRank(t, max, h); }
    }
  }

  lemma NewerHasFewer(t: Table, k: Key, k': Key)
    requires Less(k, k')
    ensures |Newer(t, k')| <= |Newer(t, k)|
  {
    forall j | j in Newer(t, k') ensures j in Newer(t, k) {
      Transitive(true, k, k', j);
    }
    SubsetIsSmaller(Newer(t, k'), Newer(t, k));
  }

  lemma CappedAreTheNewest(t: Table, max: U64, h: Hash, h': Hash)
    requires h in Capped(t, max) && h' in t && Less(KeyOf(t, h), KeyOf(t, h'))
    ensures h' in Capped(t, max)
  {
    KeptByRank(t, max, h);
    KeptByRank(t, max, h');
    NewerHasFewer(t, KeyOf(t, h), KeyOf(t, h'));
  }

  /** What is kept is upward closed. */
  lemma RetainedAreTheNewest(t: Table, cutoff: int, max: U64, h: Hash, h': Hash)
    requires h in Capped(Recent(t, cutoff), max) && h' in t && Less(KeyOf(t, h), KeyOf(t, h'))
    ensures h' in Capped(Recent(t, cutoff), max)
  {
    CappedAreTheNewest(Recent(t, cutoff), max, h, h');
  }

  lemma PrefixIsRest(xs: seq<Key>, n: nat, k: Key)
    requires Ascending(false, xs) && n <= |xs|
    ensures k in xs[..n] <==> k in xs && k !in xs[n..]
  {
    assert xs == xs[..n] + xs[n..];
    if k in xs[..n] && n < |xs| {
      var i :| 0 <= i < n && xs[i] == k;
      PositionInSuffix(xs, i, n);
    }
  }

  lemma CappedKeys(t: Table, max: U64, k: Key)
    ensures k in KeysFrom(Capped(t, max)) <==> k in KeysFrom(t) && k !in Excess(t, max)
  {
    if k in KeysFrom(t) && k !in Excess(t, max) { assert k == KeyOf(Capped(t, max), k.hash); }
    if k in KeysFrom(Capped(t, max)) { assert k == KeyOf(Capped(t, max), k.hash) == KeyOf(t, k.hash); }
  }

  /** Capacity keeps as many rows as allowed. */
  lemma CappedSize(t: Table, max: U64)
    ensures |Capped(t, max)| == Min(Offset(max), |t|)
  {
    var xs, capped := Sorted(false, KeysFrom(t)), Capped(t, max);
    SortedIsSorted(false, KeysFrom(t));
    KeysAreAsMany(t, t.Keys);
    KeysAreAsMany(capped, capped.Keys);
    var n := Min(Offset(max), |xs|);
    assert Excess(t, max) == xs[n..];
    forall k ensures k in xs[..n] <==> k in KeysFrom(capped) {
      PrefixIsRest(xs, n, k);
      CappedKeys(t, max, k);
    }
    AscendingHasSize(false, xs[..n], KeysFrom(capped));
  }

  /** Both orders delete the same number of rows in all, and keep as many of the
      young rows as capacity allows. */
  lemma RetentionCounts(t: Table, cutoff: int, max: U64)
    ensures |Capped(Recent(t, cutoff), max)| == |Recent(Capped(t, max), cutoff)|
    ensures |Capped(Recent(t, cutoff), max)| == Min(Offset(max), |Recent(t, cutoff)|)
    ensures (|t| - |Recent(t, cutoff)|) + (|Recent(t, cutoff)| - |Capped(Recent(t, cutoff), max)|)
            == (|t| - |Capped(t, max)|) + (|Capped(t, max)| - |Recent(Capped(t, max), cutoff)|)
  {
    RetentionCommutes(t, cutoff, max);
    CappedSize(Recent(t, cutoff), max);
  }

  /** "Keep only the max most recent messages" holds for every max below 2^63;
      from there on the cast is negative and everything is deleted. */
  lemma CapacityIsHonoured(t: Table, max: U64)
    requires |t| < TWO_63
    ensures |Capped(t, max)| == Min(max, |t|) <==> max < TWO_63 || |t| == 0
  {
    CappedSize(t, max);
  }
}
