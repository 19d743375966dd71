/**
  The worklist search behind the tree walk, over an arbitrary graph of hashes:
  a stack, a set of visited hashes and a fetch budget.
 */
module TreeWalk {
  import opened Common

  datatype Enr = Enr(record: seq<Byte>)

  /** What a record turns out to be: hashes it refers to, or a node it lists. */
  datatype Node = Node(children: seq<string>, enrs: seq<Enr>)

  type Reader = string -> Node

  function Leaves(read: Reader, hashes: seq<string>): seq<Enr> {
    if hashes == [] then [] else read(hashes[0]).enrs + Leaves(read, hashes[1..])
  }

  /** The hashes fetched, in order. */
  function Fetches(read: Reader, stack: seq<string>, visited: set<string>, budget: nat): seq<string>
    decreases budget, |stack|
  {
    if stack == [] then []
    else
      var hash, rest := stack[|stack| - 1], stack[..|stack| - 1];
      if hash == "" || hash in visited then Fetches(read, rest, visited, budget)
      else if budget == 0 then []
      else [hash] + Fetches(read, rest + read(hash).children, visited + {hash}, budget - 1)
  }

  method Walk(read: Reader, root: string, limit: nat) returns (enrs: seq<Enr>)
    ensures enrs == Leaves(read, Fetches(read, [root], {}, limit))
  {
    enrs := [];
    var visited: set<string> := {};
    var stack := [root];
    var budget := limit;
    ghost var goal := Leaves(read, Fetches(read, [root], {}, limit));
    while stack != []
      invariant enrs + Leaves(read, Fetches(read, stack, visited, budget)) == goal
      decreases budget, |stack|
    {
      var hash := stack[|stack| - 1];
      stack := stack[..|stack| - 1];
      if hash == "" || hash in visited {
        continue;
      }
      visited := visited + {hash};
      if budget == 0 {
        break;
      }
      budget := budget - 1;
      var node := read(hash);
      stack := stack + node.children;
      enrs := enrs + node.enrs;
      LeavesCons(read, hash, Fetches(read, stack, visited, budget));
    }
  }

  lemma LeavesCons(read: Reader, hash: string, hashes: seq<string>)
    ensures Leaves(read, [hash] + hashes) == read(hash).enrs + Leaves(read, hashes)
  {
    assert ([hash] + hashes)[1..] == hashes;
  }

  // ----- Every walk is finite, distinct and within budget

  ghost predicate Distinct(xs: seq<string>) {
    forall i, j :: 0 <= i < j < |xs| ==> xs[i] != xs[j]
  }

  lemma {:induction false} FetchesOnce(read: Reader, stack: seq<string>, visited: set<string>, budget: nat)
    ensures var f := Fetches(read, stack, visited, budget);
      Distinct(f) && |f| <= budget && "" !in f && forall h :: h in f ==> h !in visited
    decreases budget, |stack|
  {
    if stack != [] {
      var hash, rest := stack[|stack| - 1], stack[..|stack| - 1];
      if hash == "" || hash in visited {
        FetchesOnce(read, rest, visited, budget);
      } else if budget > 0 {
        FetchesOnce(read, rest + read(hash).children, visited + {hash}, budget - 1);
        var f := Fetches(read, rest + read(hash).children, visited + {hash}, budget - 1);
        assert hash !in f;
      }
    }
  }

  // ----- Reachability

  /** A chain of verified branches from the root. */
  ghost predicate IsPath(read: Reader, root: string, p: seq<string>) {
    && p != [] && p[0] == root != ""
    && forall i :: 0 < i < |p| ==> p[i] in read(p[i - 1]).children
  }

  ghost predicate Reachable(read: Reader, root: string, hash: string) {
    exists p :: IsPath(read, root, p) && p[|p| - 1] == hash
  }

  lemma ReachableStep(read: Reader, root: string, hash: string, child: string)
    requires Reachable(read, root, hash) && child in read(hash).children
    ensures Reachable(read, root, child)
  {
    var p :| IsPath(read, root, p) && p[|p| - 1] == hash;
    assert IsPath(read, root, p + [child]);
  }

  lemma {:induction false} FetchesAreReachable(
      read: Reader, root: string, stack: seq<string>, visited: set<string>, budget: nat)
    requires forall s :: s in stack && s != "" ==> Reachable(read, root, s)
    ensures forall h :: h in Fetches(read, stack, visited, budget) ==> Reachable(read, root, h)
    decreases budget, |stack|
  {
    if stack != [] {
      var hash, rest := stack[|stack| - 1], stack[..|stack| - 1];
      assert hash in stack;
      if hash == "" || hash in visited {
        FetchesAreReachable(read, root, rest, visited, budget);
      } else if budget > 0 {
        forall s | s in rest + read(hash).children && s != "" ensures Reachable(read, root, s) {
          if s !in rest { ReachableStep(read, root, hash, s); }
        }
        FetchesAreReachable(read, root, rest + read(hash).children, visited + {hash}, budget - 1);
      }
    }
  }

  ghost predicate Covered(hashes: seq<string>, visited: set<string>, fetched: seq<string>) {
    forall s :: s in hashes ==> s == "" || s in visited || s in fetched
  }

  ghost predicate Closed(read: Reader, stack: seq<string>, visited: set<string>, fetched: seq<string>) {
    Covered(stack, visited, fetched) && forall h :: h in fetched ==> Covered(read(h).children, visited, fetched)
  }

  /** A walk that does not close has spent its budget and left a known hash out. */
  ghost predicate CutShort(
      read: Reader, stack: seq<string>, visited: set<string>, budget: nat, fetched: seq<string>, x: string)
  {
    && |fetched| == budget
    && x != "" && x !in visited && x !in fetched
    && (x in stack || exists h :: h in fetched && x in read(h).children)
  }

  lemma OneMoreFetch(
      read: Reader, rest: seq<string>, hash: string, visited: set<string>, budget: nat, f: seq<string>, x: string)
    ensures Closed(read, rest + read(hash).children, visited + {hash}, f)
            ==> Closed(read, rest + [hash], visited, [hash] + f)
    ensures CutShort(read, rest + read(hash).children, visited + {hash}, budget, f, x)
            ==> CutShort(read, rest + [hash], visited, budget + 1, [hash] + f, x)
  {
    if CutShort(read, rest + read(hash).children, visited + {hash}, budget, f, x) {
      if x in read(hash).children {
        assert hash in [hash] + f;
      } else if x !in rest {
        var h :| h in f && x in read(h).children;
        assert h in [hash] + f;
      }
    }
  }

  lemma OneMoreSkip(
      read: Reader, rest: seq<string>, hash: string, visited: set<string>, budget: nat, f: seq<string>, x: string)
    requires hash == "" || hash in visited
    ensures Closed(read, rest, visited, f) ==> Closed(read, rest + [hash], visited, f)
    ensures CutShort(read, rest, visited, budget, f, x) ==> CutShort(read, rest + [hash], visited, budget, f, x)
  {
  }

  lemma {:induction false} ClosedOrCutShort(read: Reader, stack: seq<string>, visited: set<string>, budget: nat)
    returns (x: string)
    ensures var f := Fetches(read, stack, visited, budget);
      Closed(read, stack, visited, f) || CutShort(read, stack, visited, budget, f, x)
    decreases budget, |stack|
  {
    x := "";
    if stack != [] {
      var hash, rest := stack[|stack| - 1], stack[..|stack| - 1];
      assert stack == rest + [hash];
      if hash == "" || hash in visited {
        x := ClosedOrCutShort(read, rest, visited, budget);
        OneMoreSkip(read, rest, hash, visited, budget, Fetches(read, rest, visited, budget), x);
      } else if budget == 0 {
        x := hash;
      } else {
        var stack', visited' := rest + read(hash).children, visited + {hash};
        x := ClosedOrCutShort(read, stack', visited', budget - 1);
        OneMoreFetch(read, rest, hash, visited, budget - 1, Fetches(read, stack', visited', budget - 1), x);
      }
    }
  }

  // ----- Exactness

  function Elements(xs: seq<string>): set<string> {
    set x | x in xs
  }

  lemma {:induction false} DistinctSize(xs: seq<string>)
    requires Distinct(xs)
    ensures |Elements(xs)| == |xs|
  {
    if xs != [] {
      var n := |xs| - 1;
      DistinctSize(xs[..n]);
      assert Elements(xs) == Elements(xs[..n]) + {xs[n]};
    }
  }

  lemma {:induction false} ClosedHoldsPath(read: Reader, root: string, fetched: seq<string>, p: seq<string>)
    requires IsPath(read, root, p) && Closed(read, [root], {}, fetched) && forall h :: "" !in read(h).children
    ensures p[|p| - 1] in fetched
  {
    var n := |p| - 1;
    if n == 0 {
      assert root in [root];
    } else {
      ClosedHoldsPath(read, root, fetched, p[..n]);
      assert p[n] in read(p[n - 1]).children;
    }
  }

  ghost predicate Complete(read: Reader, root: string, fetched: seq<string>) {
    forall h :: Reachable(read, root, h) ==> h in fetched
  }

  /** At most n hashes are reachable. */
  ghost predicate AtMostReachable(read: Reader, root: string, n: nat) {
    exists s: set<string> :: |s| <= n && forall h :: Reachable(read, root, h) ==> h in s
  }

  lemma RootIsReachable(read: Reader, root: string)
    requires root != ""
    ensures Reachable(read, root, root)
  {
    assert IsPath(read, root, [root]);
  }

  /** A walk cut short leaves out a reachable hash, so more are reachable than fit. */
  lemma CutShortIsTooMany(read: Reader, root: string, budget: nat, f: seq<string>, x: string)
    requires CutShort(read, [root], {}, budget, f, x) && Distinct(f)
    requires forall h :: h in f ==> Reachable(read, root, h)
    ensures Reachable(read, root, x) && !AtMostReachable(read, root, budget)
  {
    if x in [root] {
      RootIsReachable(read, root);
    } else {
      var h :| h in f && x in read(h).children;
      ReachableStep(read, root, h, x);
    }
    forall s: set<string> | forall h :: Reachable(read, root, h) ==> h in s ensures |s| > budget {
      DistinctSize(f);
      var more := Elements(f) + {x};
      assert more <= s;
      assert |s| == |more| + |s - more|;
    }
  }

  /** A walk from a root with a budget fetches only reachable hashes, each once
      and within budget; it fetches all of them exactly when no more than the
      budget are reachable, and spends the whole budget otherwise. */
  lemma WalkIsExact(read: Reader, root: string, budget: nat)
    requires forall h :: "" !in read(h).children
    ensures var f := Fetches(read, [root], {}, budget);
      && Distinct(f) && |f| <= budget
      && (forall h :: h in f ==> Reachable(read, root, h))
      && (Complete(read, root, f) <==> AtMostReachable(read, root, budget))
      && (!Complete(read, root, f) ==> |f| == budget)
  {
    var f := Fetches(read, [root], {}, budget);
    FetchesOnce(read, [root], {}, budget);
    if root != "" { RootIsReachable(read, root); }
    FetchesAreReachable(read, root, [root], {}, budget);
    var x := ClosedOrCutShort(read, [root], {}, budget);
    if Closed(read, [root], {}, f) {
      forall h | Reachable(read, root, h) ensures h in f {
        var p :| IsPath(read, root, p) && p[|p| - 1] == h;
        ClosedHoldsPath(read, root, f, p);
      }
      DistinctSize(f);
      assert |Elements(f)| <= budget && forall h :: Reachable(read, root, h) ==> h in Elements(f);
    } else {
      CutShortIsTooMany(read, root, budget, f, x);
    }
  }

  // ----- Comparing two readers of the same tree

  /** Whatever `read` makes of a hash that `whole` can reach, it is nothing or the same. */
  ghost predicate OnlyOmits(read: Reader, whole: Reader, root: string) {
    forall h :: Reachable(whole, root, h) ==> read(h) == Node([], []) || read(h) == whole(h)
  }

  lemma {:induction false} OmittingReachesLess(read: Reader, whole: Reader, root: string, p: seq<string>)
    requires OnlyOmits(read, whole, root) && IsPath(read, root, p)
    ensures Reachable(whole, root, p[|p| - 1])
  {
    var n := |p| - 1;
    if n == 0 {
      RootIsReachable(whole, root);
    } else {
      OmittingReachesLess(read, whole, root, p[..n]);
      assert p[n] in read(p[n - 1]).children;
      ReachableStep(whole, root, p[n - 1], p[n]);
    }
  }

  lemma {:induction false} LeavesJoin(read: Reader, xs: seq<string>, ys: seq<string>)
    ensures Leaves(read, xs + ys) == Leaves(read, xs) + Leaves(read, ys)
  {
    if xs == [] {
      assert xs + ys == ys;
    } else {
      var x, rest := xs[0], xs[1..];
      var a, b, c := read(x).enrs, Leaves(read, rest), Leaves(read, ys);
      LeavesJoin(read, rest, ys);
      assert xs + ys == [x] + (rest + ys);
      LeavesCons(read, x, rest + ys);
      assert a + (b + c) == (a + b) + c;
    }
  }

  lemma MiddleOut(xs: seq<Enr>, ys: seq<Enr>, zs: seq<Enr>)
    ensures multiset(xs + (ys + zs)) == multiset(ys) + multiset(xs + zs)
  {
  }

  lemma LeavesWithout(read: Reader, ys: seq<string>, j: nat)
    requires j < |ys|
    ensures multiset(Leaves(read, ys))
            == multiset(read(ys[j]).enrs) + multiset(Leaves(read, ys[..j] + ys[j + 1..]))
  {
    var before, after := ys[..j], ys[j + 1..];
    assert ys == before + ([ys[j]] + after);
    LeavesJoin(read, before, [ys[j]] + after);
    LeavesCons(read, ys[j], after);
    LeavesJoin(read, before, after);
    MiddleOut(Leaves(read, before), read(ys[j]).enrs, Leaves(read, after));
  }

  /** Fewer hashes with the same or nothing under each list fewer ENRs. */
  lemma {:induction false} LeavesContained(read: Reader, whole: Reader, xs: seq<string>, ys: seq<string>)
    requires Distinct(xs)
    requires forall h :: h in xs ==> h in ys && (read(h).enrs == [] || read(h) == whole(h))
    ensures multiset(Leaves(read, xs)) <= multiset(Leaves(whole, ys))
  {
    if xs != [] {
      assert xs[0] in ys;
      var j :| 0 <= j < |ys| && ys[j] == xs[0];
      var ys' := ys[..j] + ys[j + 1..];
      forall h | h in xs[1..] ensures h in ys' {
        assert h in ys && h != ys[j];
      }
      LeavesContained(read, whole, xs[1..], ys');
      LeavesWithout(whole, ys, j);
    }
  }

  /** A reader that only omits lists no ENR that the whole tree does not, and
      none more often, when the whole tree fits the budget. */
  lemma OmittingListsLess(read: Reader, whole: Reader, root: string, budget: nat)
    requires (forall h :: "" !in read(h).children) && (forall h :: "" !in whole(h).children)
    requires OnlyOmits(read, whole, root) && AtMostReachable(whole, root, budget)
    ensures multiset(Leaves(read, Fetches(read, [root], {}, budget)))
            <= multiset(Leaves(whole, Fetches(whole, [root], {}, budget)))
  {
    var f, f' := Fetches(read, [root], {}, budget), Fetches(whole, [root], {}, budget);
    WalkIsExact(read, root, budget);
    WalkIsExact(whole, root, budget);
    forall h | h in f ensures h in f' && (read(h).enrs == [] || read(h) == whole(h)) {
      assert Reachable(read, root, h);
      var p :| IsPath(read, root, p) && p[|p| - 1] == h;
      OmittingReachesLess(read, whole, root, p);
    }
    LeavesContained(read, whole, f, f');
  }

  // ----- The order of the walk

  lemma {:induction false} NoBudgetNoFetch(read: Reader, stack: seq<string>, visited: set<string>)
    ensures Fetches(read, stack, visited, 0) == []
    decreases |stack|
  {
    if stack != [] {
      NoBudgetNoFetch(read, stack[..|stack| - 1], visited);
    }
  }

  lemma FetchesTop(read: Reader, rest: seq<string>, hash: string, visited: set<string>, budget: nat)
    ensures var f := Fetches(read, rest + [hash], visited, budget);
      if hash == "" || hash in visited then f == Fetches(read, rest, visited, budget)
      else if budget == 0 then f == []
      else f == [hash] + Fetches(read, rest + read(hash).children, visited + {hash}, budget - 1)
  {
    assert (rest + [hash])[..|rest|] == rest;
  }

  /** The lower part of a stack after the upper part is used up. */
  function Afterwards(read: Reader, lower: seq<string>, first: seq<string>, visited: set<string>, budget: nat)
    : seq<string>
    requires |first| <= budget
  {
    Fetches(read, lower, visited + Elements(first), budget - |first|)
  }

  lemma AfterwardsCons(
      read: Reader, lower: seq<string>, hash: string, first: seq<string>, visited: set<string>, budget: nat)
    requires |first| <= budget - 1
    ensures Afterwards(read, lower, [hash] + first, visited, budget)
            == Afterwards(read, lower, first, visited + {hash}, budget - 1)
  {
    assert visited + Elements([hash] + first) == visited + {hash} + Elements(first);
  }

  /** Everything that the upper part of the stack leads to is fetched before anything
      of the lower part. */
  ghost predicate UpperFirst(
      read: Reader, lower: seq<string>, upper: seq<string>, visited: set<string>, budget: nat)
  {
    var first := Fetches(read, upper, visited, budget);
    && |first| <= budget
    && Fetches(read, lower + upper, visited, budget) == first + Afterwards(read, lower, first, visited, budget)
  }

  lemma UpperFirstFetch(
      read: Reader, lower: seq<string>, rest: seq<string>, hash: string, visited: set<string>, budget: nat)
    requires hash != "" && hash !in visited && budget > 0
    requires UpperFirst(read, lower, rest + read(hash).children, visited + {hash}, budget - 1)
    ensures UpperFirst(read, lower, rest + [hash], visited, budget)
  {
    var children := read(hash).children;
    var first := Fetches(read, rest + children, visited + {hash}, budget - 1);
    FetchesTop(read, rest, hash, visited, budget);
    FetchesTop(read, lower + rest, hash, visited, budget);
    assert (lower + rest) + children == lower + (rest + children);
    assert lower + (rest + [hash]) == (lower + rest) + [hash];
    AfterwardsCons(read, lower, hash, first, visited, budget);
  }

  lemma UpperFirstSkip(
      read: Reader, lower: seq<string>, rest: seq<string>, hash: string, visited: set<string>, budget: nat)
    requires hash == "" || hash in visited || budget == 0
    requires UpperFirst(read, lower, rest, visited, budget)
    ensures UpperFirst(read, lower, rest + [hash], visited, budget)
  {
    FetchesTop(read, rest, hash, visited, budget);
    FetchesTop(read, lower + rest, hash, visited, budget);
    assert lower + (rest + [hash]) == (lower + rest) + [hash];
    if budget == 0 {
      NoBudgetNoFetch(read, rest, visited);
      NoBudgetNoFetch(read, rest + [hash], visited);
      NoBudgetNoFetch(read, lower + rest + [hash], visited);
      NoBudgetNoFetch(read, lower, visited + Elements([]));
    }
  }

  /** The walk is depth first. */
  lemma {:induction false} DepthFirst(
      read: Reader, lower: seq<string>, upper: seq<string>, visited: set<string>, budget: nat)
    ensures UpperFirst(read, lower, upper, visited, budget)
    decreases budget, |upper|
  {
    if upper == [] {
      assert lower + upper == lower && visited + Elements([]) == visited;
    } else {
      var hash, rest := upper[|upper| - 1], upper[..|upper| - 1];
      assert upper == rest + [hash];
      if hash == "" || hash in visited || budget == 0 {
        DepthFirst(read, lower, rest, visited, budget);
        UpperFirstSkip(read, lower, rest, hash, visited, budget);
      } else {
        DepthFirst(read, lower, rest + read(hash).children, visited + {hash}, budget - 1);
        UpperFirstFetch(read, lower, rest, hash, visited, budget);
      }
    }
  }
}
