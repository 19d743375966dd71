/**
  The total order of the message store: (sort_time, message_hash), with hashes
  compared as byte strings, and sorting of finite key sets in either direction.
 */
module StoreOrder {
  import opened Common
  import opened OrderedLists

  type Hash = h: seq<Byte> | |h| == 32 witness seq(32, i => 0)

  datatype Key = Key(time: int, hash: Hash)

  /** Byte-wise comparison of blobs. */
  predicate LexLess(a: seq<Byte>, b: seq<Byte>) {
    b != [] && (a == [] || a[0] < b[0] || (a[0] == b[0] && LexLess(a[1..], b[1..])))
  }

  lemma {:induction false} LexTotal(a: seq<Byte>, b: seq<Byte>)
    ensures LexLess(a, b) || LexLess(b, a) || a == b
    ensures !(LexLess(a, b) && LexLess(b, a))
    ensures !LexLess(a, a)
  {
    if a != [] && b != [] {
      LexTotal(a[1..], b[1..]);
      assert a == [a[0]] + a[1..] && b == [b[0]] + b[1..];
    } else if a != [] {
      LexTotal(a[1..], a[1..]);
    }
  }

  lemma {:induction false} LexTransitive(a: seq<Byte>, b: seq<Byte>, c: seq<Byte>)
    requires LexLess(a, b) && LexLess(b, c)
    ensures LexLess(a, c)
  {
    if a != [] && a[0] == b[0] == c[0] {
      LexTransitive(a[1..], b[1..], c[1..]);
    }
  }

  /** The strings agree up to position i, where a ends or has the smaller byte. */
  ghost predicate SmallerAt(a: seq<Byte>, b: seq<Byte>, i: int) {
    0 <= i <= |a| && i < |b| && a[..i] == b[..i] && (i == |a| || a[i] < b[i])
  }

  /** Blobs are ordered by their first difference. */
  lemma {:induction false} LexLessExactly(a: seq<Byte>, b: seq<Byte>)
    ensures LexLess(a, b) <==> exists i :: SmallerAt(a, b, i)
  {
    if b == [] {
    } else if a == [] || a[0] < b[0] {
      assert SmallerAt(a, b, 0);
    } else {
      LexLessExactly(a[1..], b[1..]);
      assert a == [a[0]] + a[1..] && b == [b[0]] + b[1..];
      if LexLess(a, b) {
        var i :| SmallerAt(a[1..], b[1..], i);
        assert SmallerAt(a, b, i + 1);
      }
      if i :| SmallerAt(a, b, i) {
        assert i > 0 ==> a[0] == a[..i][0] && b[0] == b[..i][0];
        assert a[1..][..i - 1] == a[..i][1..] && b[1..][..i - 1] == b[..i][1..];
        assert SmallerAt(a[1..], b[1..], i - 1);
      }
    }
  }

  predicate Less(a: Key, b: Key) {
    a.time < b.time || (a.time == b.time && LexLess(a.hash, b.hash))
  }

  /** a comes before b in the walking direction. */
  predicate Before(forward: bool, a: Key, b: Key) {
    if forward then Less(a, b) else Less(b, a)
  }

  lemma Total(forward: bool, a: Key, b: Key)
    ensures Before(forward, a, b) || Before(forward, b, a) || a == b
    ensures !(Before(forward, a, b) && Before(forward, b, a))
    ensures !Before(forward, a, a)
  {
    LexTotal(a.hash, b.hash);
    LexTotal(a.hash, a.hash);
  }

  lemma Transitive(forward: bool, a: Key, b: Key, c: Key)
    requires Before(forward, a, b) && Before(forward, b, c)
    ensures Before(forward, a, c)
  {
    if a.time == b.time == c.time {
      if forward { LexTransitive(a.hash, b.hash, c.hash); } else { LexTransitive(c.hash, b.hash, a.hash); }
    }
  }

  predicate IsFirst(forward: bool, s: set<Key>, m: Key) {
    m in s && forall k :: k in s && k != m ==> Before(forward, m, k)
  }

  lemma {:induction false} FirstExists(forward: bool, s: set<Key>) returns (m: Key)
    requires s != {}
    ensures IsFirst(forward, s, m)
  {
    var k :| k in s;
    if s == {k} {
      m := k;
    } else {
      var m' := FirstExists(forward, s - {k});
      Total(forward, k, m');
      m := if Before(forward, k, m') then k else m';
      forall j | j in s && j != m ensures Before(forward, m, j) {
        if m == k && j != m' { Transitive(forward, k, m', j); }
      }
    }
  }

  function First(forward: bool, s: set<Key>): (m: Key)
    requires s != {}
    ensures IsFirst(forward, s, m)
  {
    assert exists m :: IsFirst(forward, s, m) by {
      var m := FirstExists(forward, s);
    }
    assert forall m, m' :: IsFirst(forward, s, m) && IsFirst(forward, s, m') ==> m == m' by {
      forall m, m' | IsFirst(forward, s, m) && IsFirst(forward, s, m') ensures m == m' { Total(forward, m, m'); }
    }
    var m :| IsFirst(forward, s, m);
    m
  }

  ghost predicate Ascending(forward: bool, xs: seq<Key>) {
    forall i, j :: 0 <= i < j < |xs| ==> Before(forward, xs[i], xs[j])
  }

  lemma ConsAscending(forward: bool, m: Key, rest: seq<Key>)
    requires Ascending(forward, rest) && forall k :: k in rest ==> Before(forward, m, k)
    ensures Ascending(forward, [m] + rest)
  {
    var xs := [m] + rest;
    forall i, j | 0 <= i < j < |xs| ensures Before(forward, xs[i], xs[j]) {
      assert xs[j] == rest[j - 1] && (i > 0 ==> xs[i] == rest[i - 1]);
    }
  }

  /** The rows an ORDER BY over the key produces. */
  function Sorted(forward: bool, s: set<Key>): seq<Key> {
    if s == {} then []
    else
      var m := First(forward, s);
      [m] + Sorted(forward, s - {m})
  }

  lemma {:induction false} SortedIsSorted(forward: bool, s: set<Key>)
    ensures Ascending(forward, Sorted(forward, s))
    ensures forall k :: k in Sorted(forward, s) <==> k in s
    ensures |Sorted(forward, s)| == |s|
  {
    if s != {} {
      var m := First(forward, s);
      SortedIsSorted(forward, s - {m});
      ConsAscending(forward, m, Sorted(forward, s - {m}));
    }
  }

  lemma AscendingIsUnique(forward: bool, xs: seq<Key>, ys: seq<Key>)
    requires Ascending(forward, xs) && Ascending(forward, ys)
    requires forall k :: k in xs <==> k in ys
    ensures xs == ys
  {
    var before := IsOrdering(forward);
    MembersDetermine(before, xs, ys);
  }

  lemma TailMembers(forward: bool, xs: seq<Key>, k: Key)
    requires xs != [] && Ascending(forward, xs)
    ensures k in xs[1..] <==> k in xs && k != xs[0]
  {
    var before := IsOrdering(forward);
    HeadAndTail(before, xs, k);
  }

  lemma IsOrdering(forward: bool) returns (before: (Key, Key) -> bool)
    ensures Asymmetric(before) && forall a, b :: before(a, b) <==> Before(forward, a, b)
  {
    before := (a, b) => Before(forward, a, b);
    forall a, b | before(a, b) ensures !before(b, a) { Total(forward, a, b); }
  }

  /** A strictly ordered list splits at every position into what is not after
      and what is after the last key of its first part. */
  lemma SplitAt(forward: bool, xs: seq<Key>, n: nat, k: Key)
    requires Ascending(forward, xs) && 0 < n <= |xs|
    ensures k in xs[n..] <==> k in xs && Before(forward, xs[n - 1], k)
  {
    if k in xs {
      var i :| 0 <= i < |xs| && xs[i] == k;
      Total(forward, xs[n - 1], k);
      if i >= n {
        assert xs[n..][i - n] == k;
      }
    }
  }

  function Reverse(xs: seq<Key>): (ys: seq<Key>)
    ensures |ys| == |xs|
    ensures forall i :: 0 <= i < |xs| ==> ys[i] == xs[|xs| - 1 - i]
  {
    seq(|xs|, i requires 0 <= i < |xs| => xs[|xs| - 1 - i])
  }

  lemma ReverseAscends(xs: seq<Key>)
    requires Ascending(true, xs)
    ensures Ascending(false, Reverse(xs))
    ensures forall k :: k in Reverse(xs) <==> k in xs
  {
    var ys := Reverse(xs);
    forall k ensures k in ys <==> k in xs {
      if k in xs {
        var i :| 0 <= i < |xs| && xs[i] == k;
        assert ys[|xs| - 1 - i] == k;
      }
    }
  }
}
