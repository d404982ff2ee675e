/** Paths, bounded expansion and closure over an arbitrary finite-branching graph. */
module Graphs {

  function Image<T(!new)>(next: T -> set<T>, from: set<T>): set<T> {
    set a, r | a in from && r in next(a) :: r
  }

  ghost predicate Path<T>(next: T -> set<T>, p: seq<T>) {
    forall i, j :: 0 <= i < j < |p| && j == i + 1 ==> p[j] in next(p[i])
  }

  // ---- Expansion in at most depth steps that avoids some vertices ----

  /** r is reached from start in at most depth steps along vertices outside before. */
  ghost predicate Expands<T(!new)>(next: T -> set<T>, start: set<T>, before: set<T>, depth: nat, r: T) {
    exists p: seq<T> :: ExpandsBy(next, start, before, depth, r, p)
  }

  ghost predicate ExpandsBy<T>(next: T -> set<T>, start: set<T>, before: set<T>, depth: nat, r: T, p: seq<T>) {
    && 0 < |p| <= depth + 1 && p[0] in start && p[|p| - 1] == r
    && (forall x :: x in p ==> x !in before)
    && Path(next, p)
  }

  /** The same vertices, level by level: each level expands again everything below it. */
  ghost function Within<T(!new)>(next: T -> set<T>, start: set<T>, before: set<T>, depth: nat): set<T> {
    if depth == 0 then start - before
    else Within(next, start, before, depth - 1) + (Image(next, Within(next, start, before, depth - 1)) - before)
  }

  lemma WithinIsExpands<T(!new)>(next: T -> set<T>, start: set<T>, before: set<T>, depth: nat, r: T)
    ensures r in Within(next, start, before, depth) <==> Expands(next, start, before, depth, r)
  {
    if r in Within(next, start, before, depth) {
      WithinHasPath(next, start, before, depth, r);
    }
    if Expands(next, start, before, depth, r) {
      var p :| ExpandsBy(next, start, before, depth, r, p);
      PathIsWithin(next, start, before, depth, r, p);
    }
  }

  lemma {:induction false} WithinHasPath<T(!new)>(next: T -> set<T>, start: set<T>, before: set<T>, depth: nat, r: T)
    requires r in Within(next, start, before, depth)
    ensures Expands(next, start, before, depth, r)
    decreases depth
  {
    if depth == 0 {
      assert ExpandsBy(next, start, before, depth, r, [r]);
    } else if r in Within(next, start, before, depth - 1) {
      WithinHasPath(next, start, before, depth - 1, r);
      var p :| ExpandsBy(next, start, before, depth - 1, r, p);
      assert ExpandsBy(next, start, before, depth, r, p);
    } else {
      var a :| a in Within(next, start, before, depth - 1) && r in next(a);
      WithinHasPath(next, start, before, depth - 1, a);
      var p :| ExpandsBy(next, start, before, depth - 1, a, p);
      assert ExpandsBy(next, start, before, depth, r, p + [r]);
    }
  }

  lemma {:induction false} PathIsWithin<T(!new)>(next: T -> set<T>, start: set<T>, before: set<T>, depth: nat,
                                                 r: T, p: seq<T>)
    requires ExpandsBy(next, start, before, depth, r, p)
    ensures r in Within(next, start, before, depth)
    decreases depth
  {
    if |p| == 1 {
      StartIsWithin(next, start, before, depth, r);
    } else {
      PathIsWithin(next, start, before, depth - 1, p[|p| - 2], p[..|p| - 1]);
    }
  }

  lemma {:induction false} StartIsWithin<T(!new)>(next: T -> set<T>, start: set<T>, before: set<T>, depth: nat, r: T)
    requires r in start - before
    ensures r in Within(next, start, before, depth)
    decreases depth
  {
    if depth > 0 {
      StartIsWithin(next, start, before, depth - 1, r);
    }
  }

  lemma {:induction false} WithinAvoids<T(!new)>(next: T -> set<T>, start: set<T>, before: set<T>, depth: nat)
    ensures Within(next, start, before, depth) !! before
    decreases depth
  {
    if depth > 0 {
      WithinAvoids(next, start, before, depth - 1);
    }
  }

  /** What level depth adds: the only vertices a breadth-first search expands next. */
  ghost function Frontier<T(!new)>(next: T -> set<T>, start: set<T>, before: set<T>, depth: nat): set<T> {
    if depth == 0 then start - before
    else Within(next, start, before, depth) - Within(next, start, before, depth - 1)
  }

  /** Expanding the frontier alone reaches what expanding everything reaches. */
  lemma FrontierSuffices<T(!new)>(next: T -> set<T>, start: set<T>, before: set<T>, depth: nat)
    ensures var w := Within(next, start, before, depth);
            var f := Frontier(next, start, before, depth);
            && before + w + Image(next, f) == before + Within(next, start, before, depth + 1)
            && Image(next, f) - (before + w) == Frontier(next, start, before, depth + 1)
  {
    var w := Within(next, start, before, depth);
    var f := Frontier(next, start, before, depth);
    if depth > 0 {
      var inner := Within(next, start, before, depth - 1);
      assert w == inner + f;
      assert Image(next, w) == Image(next, inner) + Image(next, f);
      assert Image(next, inner) <= before + w;
    }
    assert Image(next, w) - (before + w) == Image(next, f) - (before + w);
    WithinAvoids(next, start, before, depth);
  }

  /** The vertices expanded by the levels below depth. */
  ghost function ExpandedBelow<T(!new)>(next: T -> set<T>, start: set<T>, before: set<T>, depth: nat): set<T> {
    if depth == 0 then {} else Within(next, start, before, depth - 1)
  }

  lemma ExpandedOnce<T(!new)>(next: T -> set<T>, start: set<T>, before: set<T>, depth: nat)
    ensures var done := ExpandedBelow(next, start, before, depth);
            var f := Frontier(next, start, before, depth);
            done !! f && done + f == ExpandedBelow(next, start, before, depth + 1)
  {
  }

  // ---- Closure ----

  /** r is reached from a vertex of start by a finite chain of steps. */
  ghost predicate Reachable<T(!new)>(next: T -> set<T>, start: set<T>, r: T) {
    exists p: seq<T> :: ReachesBy(next, start, r, p)
  }

  ghost predicate ReachesBy<T>(next: T -> set<T>, start: set<T>, r: T, p: seq<T>) {
    0 < |p| && p[0] in start && p[|p| - 1] == r && Path(next, p)
  }

  ghost predicate Closed<T(!new)>(next: T -> set<T>, s: set<T>) {
    Image(next, s) <= s
  }

  lemma ReachableStart<T(!new)>(next: T -> set<T>, start: set<T>, r: T)
    requires r in start
    ensures Reachable(next, start, r)
  {
    assert ReachesBy(next, start, r, [r]);
  }

  lemma ReachableStep<T(!new)>(next: T -> set<T>, start: set<T>, a: T, r: T)
    requires Reachable(next, start, a) && r in next(a)
    ensures Reachable(next, start, r)
  {
    var p :| ReachesBy(next, start, a, p);
    assert ReachesBy(next, start, r, p + [r]);
  }

  lemma {:induction false} PathStays<T(!new)>(next: T -> set<T>, closed: set<T>, p: seq<T>)
    requires Closed(next, closed) && 0 < |p| && p[0] in closed && Path(next, p)
    ensures p[|p| - 1] in closed
  {
    if |p| > 1 {
      PathStays(next, closed, p[..|p| - 1]);
      assert p[|p| - 1] in Image(next, closed);
    }
  }

  /** s holds exactly what start reaches. */
  ghost predicate IsClosure<T(!new)>(next: T -> set<T>, start: set<T>, s: set<T>) {
    forall r :: r in s <==> Reachable(next, start, r)
  }

  /** The closure is the least closed set above start. */
  lemma ClosureIsLeastFixpoint<T(!new)>(next: T -> set<T>, start: set<T>, s: set<T>)
    requires IsClosure(next, start, s)
    ensures start <= s && Closed(next, s)
    ensures forall other: set<T> :: start <= other && Closed(next, other) ==> s <= other
  {
    forall r | r in start
      ensures r in s
    {
      ReachableStart(next, start, r);
    }
    forall a, r | a in s && r in next(a)
      ensures r in s
    {
      ReachableStep(next, start, a, r);
    }
    forall other: set<T>, r | start <= other && Closed(next, other) && r in s
      ensures r in other
    {
      var p :| ReachesBy(next, start, r, p);
      PathStays(next, other, p);
    }
  }

  /** A closed set above start made of reachable vertices is the closure. */
  lemma FixpointIsClosure<T(!new)>(next: T -> set<T>, start: set<T>, s: set<T>)
    requires start <= s && Closed(next, s) && forall r :: r in s ==> Reachable(next, start, r)
    ensures IsClosure(next, start, s)
  {
    forall r | Reachable(next, start, r)
      ensures r in s
    {
      var p :| ReachesBy(next, start, r, p);
      PathStays(next, s, p);
    }
  }

  /** A path that ends in r and does not start there enters r from another vertex. */
  lemma {:induction false} PathEnters<T(!new)>(next: T -> set<T>, p: seq<T>, r: T) returns (k: nat)
    requires 0 < |p| && p[|p| - 1] == r && p[0] != r && Path(next, p)
    ensures k < |p| && p[k] != r && r in next(p[k]) && Path(next, p[..k + 1])
  {
    if p[|p| - 2] == r {
      k := PathEnters(next, p[..|p| - 1], r);
      assert p[..|p| - 1][..k + 1] == p[..k + 1];
    } else {
      k := |p| - 2;
    }
  }

  // ---- Two descriptions of one graph ----

  lemma SameExpands<T(!new)>(f: T -> set<T>, g: T -> set<T>, start: set<T>, before: set<T>, depth: nat, r: T)
    requires forall x :: f(x) == g(x)
    ensures Expands(f, start, before, depth, r) <==> Expands(g, start, before, depth, r)
  {
    if Expands(f, start, before, depth, r) {
      var p :| ExpandsBy(f, start, before, depth, r, p);
      assert ExpandsBy(g, start, before, depth, r, p);
    }
    if Expands(g, start, before, depth, r) {
      var p :| ExpandsBy(g, start, before, depth, r, p);
      assert ExpandsBy(f, start, before, depth, r, p);
    }
  }

  lemma SameReachable<T(!new)>(f: T -> set<T>, g: T -> set<T>, start: set<T>, r: T)
    requires forall x :: f(x) == g(x)
    ensures Reachable(f, start, r) <==> Reachable(g, start, r)
  {
    if Reachable(f, start, r) {
      var p :| ReachesBy(f, start, r, p);
      assert ReachesBy(g, start, r, p);
    }
    if Reachable(g, start, r) {
      var p :| ReachesBy(g, start, r, p);
      assert ReachesBy(f, start, r, p);
    }
  }
}
