/** Lists that are strictly ordered by any asymmetric relation. */
module OrderedLists {
  ghost predicate Asymmetric<T(!new)>(before: (T, T) -> bool) {
    forall a, b :: before(a, b) ==> !before(b, a)
  }

  ghost predicate InOrder<T(!new)>(before: (T, T) -> bool, xs: seq<T>) {
    forall i, j :: 0 <= i < j < |xs| ==> before(xs[i], xs[j])
  }

  lemma HeadAndTail<T(!new)>(before: (T, T) -> bool, xs: seq<T>, x: T)
    requires Asymmetric(before) && InOrder(before, xs) && xs != []
    ensures x in xs[1..] <==> x in xs && x != xs[0]
    ensures x in xs[1..] ==> before(xs[0], x)
  {
    assert xs == [xs[0]] + xs[1..];
    if x in xs[1..] {
      var i :| 0 <= i < |xs[1..]| && xs[1..][i] == x;
      assert before(xs[0], xs[i + 1]);
    }
  }

  lemma SomeMember<T(!new)>(xs: seq<T>)
    ensures xs == [] || exists x :: x in xs
  {
    if xs != [] {
      assert xs[0] in xs;
    }
  }

  /** The members determine the list. */
  lemma {:induction false} MembersDetermine<T(!new)>(before: (T, T) -> bool, xs: seq<T>, ys: seq<T>)
    requires Asymmetric(before) && InOrder(before, xs) && InOrder(before, ys)
    requires forall x :: x in xs <==> x in ys
    ensures xs == ys
  {
    SomeMember(xs);
    SomeMember(ys);
    if xs != [] && ys != [] {
      assert xs[0] in ys && ys[0] in xs;
      HeadAndTail(before, xs, ys[0]);
      HeadAndTail(before, ys, xs[0]);
      forall x ensures x in xs[1..] <==> x in ys[1..] {
        HeadAndTail(before, xs, x);
        HeadAndTail(before, ys, x);
      }
      MembersDetermine(before, xs[1..], ys[1..]);
      assert xs == [xs[0]] + xs[1..] && ys == [ys[0]] + ys[1..];
    }
  }
}
