/** Small vocabulary shared by the models: optional values, results, and facts about sequences. */
module Lists {

  datatype Option<+T> = None | Some(value: T)

  datatype Result<+T> = Ok(value: T) | Err(message: string)

  /** What committing a transaction does. AckLost: it took effect and its confirmation did not arrive. */
  datatype CommitAnswer = Committed | RolledBack | AckLost

  function Elems<T>(s: seq<T>): set<T> {
    set x | x in s
  }

  ghost predicate Distinct<T>(s: seq<T>) {
    forall i, j :: 0 <= i < j < |s| ==> s[i] != s[j]
  }

  lemma ElemsConcat<T>(a: seq<T>, b: seq<T>)
    ensures Elems(a + b) == Elems(a) + Elems(b)
  {
  }

  lemma Member<T>(s: set<T>) returns (x: T)
    requires |s| > 0
    ensures x in s
  {
    assert s != {};
    x :| x in s;
  }

  lemma DistinctAppend<T>(s: seq<T>, t: seq<T>)
    requires Distinct(s) && Distinct(t) && Elems(s) !! Elems(t)
    ensures Distinct(s + t)
  {
    forall i, j | 0 <= i < j < |s + t|
      ensures (s + t)[i] != (s + t)[j]
    {
      if i < |s| <= j {
        assert (s + t)[i] in Elems(s) && (s + t)[j] in Elems(t);
      }
    }
  }

  lemma {:induction false} DistinctSize<T>(s: seq<T>)
    requires Distinct(s)
    ensures |Elems(s)| == |s|
  {
    if s != [] {
      var init, last := s[..|s| - 1], s[|s| - 1];
      DistinctSize(init);
      assert s == init + [last];
      assert Elems(s) == Elems(init) + {last};
    }
  }

  function Concat<T>(parts: seq<seq<T>>): seq<T> {
    if parts == [] then [] else parts[0] + Concat(parts[1..])
  }

  lemma {:induction false} ConcatAppend<T>(parts: seq<seq<T>>, last: seq<T>)
    ensures Concat(parts + [last]) == Concat(parts) + last
  {
    if parts == [] {
      assert (parts + [last])[1..] == [];
    } else {
      ConcatAppend(parts[1..], last);
      assert (parts + [last])[1..] == parts[1..] + [last];
    }
  }

  function Map<A, B>(f: A -> B, s: seq<A>): (r: seq<B>)
    ensures |r| == |s| && forall i :: 0 <= i < |s| ==> r[i] == f(s[i])
  {
    seq(|s|, i requires 0 <= i < |s| => f(s[i]))
  }

  // ---- Sorting: the order in which Go's slices.Sorted returns the keys of a map ----

  ghost predicate TotalOrder<T(!new)>(le: (T, T) -> bool) {
    && (forall a :: le(a, a))
    && (forall a, b :: le(a, b) || le(b, a))
    && (forall a, b :: le(a, b) && le(b, a) ==> a == b)
    && (forall a, b, c :: le(a, b) && le(b, c) ==> le(a, c))
  }

  ghost predicate Ordered<T>(le: (T, T) -> bool, s: seq<T>) {
    forall i, j :: 0 <= i < j < |s| ==> le(s[i], s[j])
  }

  /** Whatever order a map or a query yields its elements in, sorting them gives one list. */
  lemma {:induction false} SortedUnique<T(!new)>(le: (T, T) -> bool, a: seq<T>, b: seq<T>)
    requires TotalOrder(le)
    requires Ordered(le, a) && Ordered(le, b) && Distinct(a) && Distinct(b)
    requires Elems(a) == Elems(b)
    ensures a == b
  {
    assert |a| > 0 ==> a[0] in Elems(a);
    assert |b| > 0 ==> b[0] in Elems(b);
    if a == [] {
      assert Elems(b) == {};
    } else {
      assert a[0] in Elems(b) && a[0] in Elems(a);
      var k :| 0 <= k < |b| && b[k] == a[0];
      assert b[0] in Elems(a);
      var m :| 0 <= m < |a| && a[m] == b[0];
      assert le(a[0], b[0]) && le(b[0], a[0]);
      assert Elems(a[1..]) == Elems(a) - {a[0]};
      assert Elems(b[1..]) == Elems(b) - {b[0]};
      SortedUnique(le, a[1..], b[1..]);
      assert a == [a[0]] + a[1..] && b == [b[0]] + b[1..];
    }
  }

  /** An order in which different elements may tie. */
  ghost predicate Preorder<T(!new)>(le: (T, T) -> bool) {
    && (forall a, b :: le(a, b) || le(b, a))
    && (forall a, b, c :: le(a, b) && le(b, c) ==> le(a, c))
  }

  lemma InsertKeepsOrder<T(!new)>(le: (T, T) -> bool, r: seq<T>, k: nat, x: T)
    requires Preorder(le) && Ordered(le, r) && k <= |r|
    requires forall i :: 0 <= i < k ==> le(r[i], x)
    requires k < |r| ==> le(x, r[k])
    ensures Ordered(le, r[..k] + [x] + r[k..])
  {
    assert forall i :: k <= i < |r| ==> le(x, r[i]);
  }

  lemma InsertKeepsDistinct<T>(r: seq<T>, k: nat, x: T)
    requires Distinct(r) && x !in r && k <= |r|
    ensures Distinct(r[..k] + [x] + r[k..]) && Elems(r[..k] + [x] + r[k..]) == Elems(r) + {x}
  {
    assert r == r[..k] + r[k..];
  }

  /** Insertion sort of a set: the model of slices.Sorted(maps.Keys(m)). */
  method Sort<T(!new)>(le: (T, T) -> bool, elems: set<T>) returns (r: seq<T>)
    requires TotalOrder(le)
    ensures Ordered(le, r) && Distinct(r) && Elems(r) == elems
  {
    r := [];
    var rest := elems;
    while rest != {}
      invariant rest <= elems
      invariant Ordered(le, r) && Distinct(r) && Elems(r) == elems - rest
      decreases rest
    {
      var x :| x in rest;
      assert x !in Elems(r);
      var k := 0;
      while k < |r| && le(r[k], x)
        invariant 0 <= k <= |r|
        invariant forall i :: 0 <= i < k ==> le(r[i], x)
      {
        k := k + 1;
      }
      InsertKeepsOrder(le, r, k, x);
      InsertKeepsDistinct(r, k, x);
      r, rest := r[..k] + [x] + r[k..], rest - {x};
    }
  }

  method InsertSorted<T(!new)>(le: (T, T) -> bool, s: seq<T>, x: T) returns (r: seq<T>)
    requires Preorder(le) && Ordered(le, s)
    ensures Ordered(le, r) && multiset(r) == multiset(s) + multiset{x}
  {
    var k := 0;
    while k < |s| && le(s[k], x)
      invariant 0 <= k <= |s|
      invariant forall j :: 0 <= j < k ==> le(s[j], x)
    {
      k := k + 1;
    }
    InsertKeepsOrder(le, s, k, x);
    assert s == s[..k] + s[k..];
    r := s[..k] + [x] + s[k..];
  }

  /** Insertion sort of a list: the model of slices.SortFunc, which may put ties in any order. */
  method SortList<T(!new)>(le: (T, T) -> bool, s: seq<T>) returns (r: seq<T>)
    requires Preorder(le)
    ensures Ordered(le, r) && multiset(r) == multiset(s)
  {
    r := [];
    for i := 0 to |s|
      invariant Ordered(le, r) && multiset(r) == multiset(s[..i])
    {
      assert s[..i + 1] == s[..i] + [s[i]];
      r := InsertSorted(le, r, s[i]);
    }
    assert s[..|s|] == s;
  }

  /** strings.Compare: lexicographic order. */
  predicate StringLe(a: string, b: string) {
    a == [] || (b != [] && (a[0] < b[0] || (a[0] == b[0] && StringLe(a[1..], b[1..]))))
  }

  lemma {:induction false} StringLeTotal(a: string, b: string)
    ensures StringLe(a, a)
    ensures StringLe(a, b) || StringLe(b, a)
    ensures StringLe(a, b) && StringLe(b, a) ==> a == b
  {
    if a != [] {
      StringLeTotal(a[1..], if b == [] then [] else b[1..]);
      if b != [] && a[0] == b[0] {
        assert a == [a[0]] + a[1..] && b == [b[0]] + b[1..];
      }
    }
  }

  lemma {:induction false} StringLeTransitive(a: string, b: string, c: string)
    requires StringLe(a, b) && StringLe(b, c)
    ensures StringLe(a, c)
  {
    if a != [] && a[0] == b[0] == c[0] {
      StringLeTransitive(a[1..], b[1..], c[1..]);
    }
  }

  /** At position k the texts differ for the first time, and a is the smaller one or ends there. */
  ghost predicate SmallerAt(a: string, b: string, k: nat) {
    k <= |a| && k <= |b| && a[..k] == b[..k] && (k == |a| || (k < |b| && a[k] < b[k]))
  }

  /** The smaller text has the smaller character where they first differ, or is a prefix. */
  lemma {:induction false} StringLeIff(a: string, b: string)
    ensures StringLe(a, b) <==> exists k: nat :: SmallerAt(a, b, k)
  {
    if a == [] {
      assert SmallerAt(a, b, 0);
    } else if b != [] && a[0] == b[0] {
      StringLeIff(a[1..], b[1..]);
      if k: nat :| SmallerAt(a[1..], b[1..], k) {
        assert a[..k + 1] == [a[0]] + a[1..][..k] && b[..k + 1] == [b[0]] + b[1..][..k];
        assert SmallerAt(a, b, k + 1);
      }
      if k: nat :| SmallerAt(a, b, k) {
        assert k > 0 && a[1..][..k - 1] == a[..k][1..] && b[1..][..k - 1] == b[..k][1..];
        assert SmallerAt(a[1..], b[1..], k - 1);
      }
    } else if b != [] {
      assert a[0] < b[0] ==> SmallerAt(a, b, 0);
      forall k | 0 < k <= |a| && k <= |b|
        ensures a[..k] != b[..k]
      {
        assert a[..k][0] != b[..k][0];
      }
    }
  }

  lemma StringOrder()
    ensures TotalOrder(StringLe)
  {
    forall a, b {
      StringLeTotal(a, b);
    }
    forall a, b, c | StringLe(a, b) && StringLe(b, c)
      ensures StringLe(a, c)
    {
      StringLeTransitive(a, b, c);
    }
  }

  /** slices.Sorted of a set of strings. */
  method SortStrings(elems: set<string>) returns (r: seq<string>)
    ensures Ordered(StringLe, r) && Distinct(r) && Elems(r) == elems
  {
    StringOrder();
    r := Sort(StringLe, elems);
  }
}
