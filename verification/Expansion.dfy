/**
  Which rows a seed expands and which children it expands them to
  (internal/pkg/dump/walk.go and config.go), stated by position in key order.
 */
module Expansion {
  import opened Lists
  import opened Database
  import opened Config
  import C = Catalog
  import opened Graphs
  import opened Selection

  /** A ctid stands for one row of its table. */
  ghost predicate DistinctRows(tables: Tables) {
    forall t :: t in tables ==> DistinctCtids(tables[t])
  }

  // ---- The cap ----

  /** One of the patterns of all_children lifts the cap, or fewer rows than the cap come first. */
  ghost predicate WithinCap(cfg: Config, s: Seed, key: string, rank: nat) {
    || (exists p :: p in s.allChildren && Matches(p, key))
    || exists k :: CapIs(cfg, s, k) && rank < k
  }

  /**
    Row i of fk's child table is r, it references row j of the parent table, which
    is a, and it is among the first of those. No exclude pattern names its table.
   */
  ghost predicate FirstChildAt(src: Source, s: Seed, a: RowId, r: RowId, fk: ForeignKey, j: nat, i: nat) {
    var parents, rows := Rows(src.tables, fk.parent), Rows(src.tables, fk.child);
    && fk in src.cat.fks && (forall p :: p in src.cfg.exclude ==> !Matches(p, fk.child))
    && j < |parents| && a == RowId(fk.parent, parents[j].ctid)
    && i < |rows| && r == RowId(fk.child, rows[i].ctid)
    && Refers(fk, rows[i].row, parents[j].row)
    && WithinCap(src.cfg, s, fk.child, Rank(fk, parents[j].row, rows, i))
  }

  lemma CapHolds(cfg: Config, s: Seed, key: string, rank: nat)
    ensures WithinCap(cfg, s, key, rank) <==> ChildLimit(cfg, s, key) == 0 || rank < ChildLimit(cfg, s, key)
  {
    assert CapIs(cfg, s, ChildrenPerParent(cfg, s));
  }

  ghost predicate FirstChild(src: Source, s: Seed, a: RowId, r: RowId) {
    exists fk, j: nat, i: nat :: FirstChildAt(src, s, a, r, fk, j, i)
  }

  /** The rows a query answers for one parent are its first children in key order. */
  lemma KidsAreFirst(src: Source, s: Seed, a: RowId, r: RowId)
    requires DistinctRows(src.tables)
    ensures r in Kids(src, s)(a) <==> FirstChild(src, s, a, r)
  {
    if r in Children(src, s, a) {
      var fk, x :| fk in src.cat.fks && fk.parent == a.table && !Excluded(src.cfg, fk.child)
                && x in Answer(src.tables, ChildQuery(fk, ChildLimit(src.cfg, s, fk.child)), {a.ctid})
                && r == RowId(fk.child, x);
      KidIsFirst(src, s, a, x, fk);
    }
    if FirstChild(src, s, a, r) {
      var fk, j: nat, i: nat :| FirstChildAt(src, s, a, r, fk, j, i);
      var p := Rows(src.tables, fk.parent)[j];
      ChildCap(fk, ChildLimit(src.cfg, s, fk.child), p.row, Rows(src.tables, fk.child), i);
      CapHolds(src.cfg, s, fk.child, Rank(fk, p.row, Rows(src.tables, fk.child), i));
      assert r.ctid in Answer(src.tables, ChildQuery(fk, ChildLimit(src.cfg, s, fk.child)), {a.ctid});
    }
  }

  lemma KidIsFirst(src: Source, s: Seed, a: RowId, x: Ctid, fk: ForeignKey)
    requires DistinctRows(src.tables) && fk in src.cat.fks && fk.parent == a.table && !Excluded(src.cfg, fk.child)
    requires x in Answer(src.tables, ChildQuery(fk, ChildLimit(src.cfg, s, fk.child)), {a.ctid})
    ensures FirstChild(src, s, a, RowId(fk.child, x))
  {
    var limit, rows := ChildLimit(src.cfg, s, fk.child), Rows(src.tables, fk.child);
    var p :| p in Rows(src.tables, fk.parent) && p.ctid == a.ctid && x in Limited(limit, Referencing(fk, p.row, rows));
    ReferencingMember(fk, p.row, rows, x);
    var c :| c in rows && c.ctid == x && Refers(fk, c.row, p.row);
    var i :| 0 <= i < |rows| && rows[i] == c;
    var j :| 0 <= j < |Rows(src.tables, fk.parent)| && Rows(src.tables, fk.parent)[j] == p;
    ChildCap(fk, limit, p.row, rows, i);
    CapHolds(src.cfg, s, fk.child, Rank(fk, p.row, rows, i));
    assert FirstChildAt(src, s, a, RowId(fk.child, x), fk, j, i);
  }

  /**
    What a seed adds: its own rows, and of every row it expands exactly the
    first children in key order, as many per foreign key as the cap allows.
   */
  lemma StageIsCapped(src: Source, s: Seed, pick: seq<Ctid>, before: set<RowId>, after: set<RowId>, r: RowId)
    requires DistinctRows(src.tables) && Stage(src, s, pick, before, after)
    ensures r in after <==>
            || r in before || r in SeedRows(s, pick)
            || exists a :: Expanded(src, s, pick, before, a) && FirstChild(src, s, a, r)
  {
    var kids, start, depth := Kids(src, s), SeedRows(s, pick), ChildDepth(s);
    WithinIsExpands(kids, start, before, depth, r);
    if r in start - before {
      StartIsWithin(kids, start, before, depth, r);
    }
    if depth > 0 {
      forall a
        ensures a in Within(kids, start, before, depth - 1) <==> Expanded(src, s, pick, before, a)
        ensures r in kids(a) <==> FirstChild(src, s, a, r)
      {
        WithinIsExpands(kids, start, before, depth - 1, a);
        KidsAreFirst(src, s, a, r);
      }
      WithinIsChild(kids, start, before, depth, r);
    }
  }

  /** What the levels hold beyond the start is a child of something in a lower level. */
  lemma {:induction false} WithinIsChild<T(!new)>(next: T -> set<T>, start: set<T>, before: set<T>, depth: nat, r: T)
    requires depth > 0
    ensures r in Within(next, start, before, depth) <==>
            r !in before && (r in start || exists a :: a in Within(next, start, before, depth - 1) && r in next(a))
    decreases depth
  {
    WithinAvoids(next, start, before, depth);
    if r in start - before {
      StartIsWithin(next, start, before, depth, r);
    }
    if depth > 1 && r in Within(next, start, before, depth - 1) {
      WithinIsChild(next, start, before, depth - 1, r);
      if r !in start {
        var a :| a in Within(next, start, before, depth - 2) && r in next(a);
        assert a in Within(next, start, before, depth - 1);
      }
    }
  }

  // ---- How many ----

  function Least(a: nat, b: nat): nat {
    if a <= b then a else b
  }

  lemma LimitedSize(k: nat, all: seq<Ctid>)
    requires Distinct(all)
    ensures Elems(Limited(k, all)) <= Elems(all)
    ensures |Elems(all)| == |all| && |Elems(Limited(k, all))| == if k == 0 then |all| else Least(k, |all|)
    ensures k == 0 ==> Limited(k, all) == all
  {
    DistinctSize(all);
    DistinctSize(Limited(k, all));
    assert forall x :: x in Limited(k, all) ==> x in all;
  }

  lemma AnswerOfParent(tables: Tables, fk: ForeignKey, k: nat, p: Record)
    requires DistinctRows(tables) && p in Rows(tables, fk.parent)
    ensures Answer(tables, ChildQuery(fk, k), {p.ctid}) ==
            Elems(Limited(k, Referencing(fk, p.row, Rows(tables, fk.child))))
  {
    assert forall q :: q in Rows(tables, fk.parent) && q.ctid == p.ctid ==> q == p;
  }

  /**
    The children of one row through one foreign key: all of them for a table
    that matches all_children, and otherwise as many as there are up to the
    seed's cap, or the configuration's, or 20.
   */
  lemma ChildrenPerRow(src: Source, s: Seed, fk: ForeignKey, ctid: Ctid, cap: nat)
    requires DistinctRows(src.tables) && CapIs(src.cfg, s, cap)
    ensures var all := Answer(src.tables, ChildQuery(fk, 0), {ctid});
            var taken := Answer(src.tables, ChildQuery(fk, ChildLimit(src.cfg, s, fk.child)), {ctid});
            && taken <= all
            && if exists p :: p in s.allChildren && Matches(p, fk.child) then taken == all
               else |taken| == Least(cap, |all|)
  {
    var limit := ChildLimit(src.cfg, s, fk.child);
    if exists p :: p in Rows(src.tables, fk.parent) && p.ctid == ctid {
      var p :| p in Rows(src.tables, fk.parent) && p.ctid == ctid;
      var list := Referencing(fk, p.row, Rows(src.tables, fk.child));
      AnswerOfParent(src.tables, fk, limit, p);
      AnswerOfParent(src.tables, fk, 0, p);
      ReferencingDistinct(fk, p.row, Rows(src.tables, fk.child));
      LimitedSize(limit, list);
      LimitedSize(0, list);
    } else {
      assert Answer(src.tables, ChildQuery(fk, 0), {ctid}) == {};
      assert Answer(src.tables, ChildQuery(fk, limit), {ctid}) == {};
    }
  }

  // ---- Whose children ----

  const PARENT := Record("p", map["id" := Int(1)])
  const CHILD := Record("c", map["id" := Int(2), "up" := Int(1)])

  function SelfKey(key: string): ForeignKey {
    ForeignKey(key, key, ["up"], ["id"])
  }

  /** The table of a qualified name. */
  ghost function TableOf(key: string): (t: C.Table)
    requires '.' in key
    ensures t.Key() == key && t.columns == ["id", "up"] && t.transforms == map[]
  {
    var k :| 0 <= k < |key| && key[k] == '.';
    C.Table(key[..k], key[k + 1..], ["id", "up"], map[])
  }

  /** The seed's table holds a row and a child of it in the same table. */
  ghost function TwoGenerations(s: Seed): Source {
    var key := SeedKey(s);
    QualifyOnce(s.table);
    Source(map[key := [CHILD, PARENT]],
           C.Catalog(map[key := TableOf(key)], [key], [SelfKey(key)], []),
           Config([s], None, [], []))
  }

  lemma ParentHasChild(s: Seed)
    ensures DistinctRows(TwoGenerations(s).tables)
    ensures RowId(SeedKey(s), "c") in Kids(TwoGenerations(s), s)(RowId(SeedKey(s), "p"))
  {
    var src, key := TwoGenerations(s), SeedKey(s);
    var p, c := RowId(key, "p"), RowId(key, "c");
    assert Rank(SelfKey(key), PARENT.row, [CHILD, PARENT], 0) == 0;
    CapHolds(src.cfg, s, key, 0);
    assert FirstChildAt(src, s, p, c, SelfKey(key), 1, 0);
    KidsAreFirst(src, s, p, c);
  }

  /** With a depth of 2 or more a row that is not the seed's is expanded to children. */
  lemma ChildIsExpanded(s: Seed)
    requires ChildDepth(s) >= 2
    ensures var c := RowId(SeedKey(s), "c");
            && DistinctRows(TwoGenerations(s).tables) && C.Valid(TwoGenerations(s).cat)
            && Expanded(TwoGenerations(s), s, ["p"], {}, c) && c !in SeedRows(s, ["p"])
  {
    var src, key := TwoGenerations(s), SeedKey(s);
    ParentHasChild(s);
    var path := [RowId(key, "p"), RowId(key, "c")];
    assert ExpandsBy(Kids(src, s), SeedRows(s, ["p"]), {}, ChildDepth(s) - 1, RowId(key, "c"), path);
    assert Elems([key]) == {key};
  }

  /** What depth means: a row is expanded when it is fewer than that many steps from the seed. */
  lemma ExpandedIff(src: Source, s: Seed, pick: seq<Ctid>, before: set<RowId>, a: RowId, d: nat)
    requires DepthIs(s, d)
    ensures Expanded(src, s, pick, before, a) <==>
            exists p :: |p| <= d && ExpandsBy(Kids(src, s), SeedRows(s, pick), before, d, a, p)
  {
    if Expanded(src, s, pick, before, a) {
      var p :| ExpandsBy(Kids(src, s), SeedRows(s, pick), before, d - 1, a, p);
      assert ExpandsBy(Kids(src, s), SeedRows(s, pick), before, d, a, p);
    }
    if p :| |p| <= d && ExpandsBy(Kids(src, s), SeedRows(s, pick), before, d, a, p) {
      assert ExpandsBy(Kids(src, s), SeedRows(s, pick), before, d - 1, a, p);
    }
  }

  /** Only the seed's own rows are expanded to children, whatever the snapshot, exactly when its depth is at most 1. */
  lemma OnlySeedRowsExpandIff(s: Seed)
    ensures (forall src, pick, before, a :: Expanded(src, s, pick, before, a) ==> a in SeedRows(s, pick)) <==>
              exists d :: DepthIs(s, d) && d <= 1
  {
    assert DepthIs(s, ChildDepth(s));
    if ChildDepth(s) >= 2 {
      ChildIsExpanded(s);
    } else {
      forall src, pick, before, a | Expanded(src, s, pick, before, a)
        ensures a in SeedRows(s, pick)
      {
        var p :| ExpandsBy(Kids(src, s), SeedRows(s, pick), before, ChildDepth(s) - 1, a, p);
      }
    }
  }

  lemma {:induction false} StagesGrow(src: Source, picks: seq<seq<Ctid>>, stages: seq<set<RowId>>, i: nat, j: nat)
    requires Stages(src, picks, stages) && i <= j < |stages|
    ensures stages[i] <= stages[j]
    decreases j
  {
    if i < j {
      StagesGrow(src, picks, stages, i, j - 1);
      assert Stage(src, src.cfg.seeds[j - 1], picks[j - 1], stages[j - 1], stages[j - 1 + 1]);
    }
  }

  lemma ExpandedIsNew(src: Source, s: Seed, pick: seq<Ctid>, before: set<RowId>, after: set<RowId>, a: RowId)
    requires Stage(src, s, pick, before, after) && Expanded(src, s, pick, before, a)
    ensures a in after - before
  {
    var p :| ExpandsBy(Kids(src, s), SeedRows(s, pick), before, ChildDepth(s) - 1, a, p);
    assert ExpandsBy(Kids(src, s), SeedRows(s, pick), before, ChildDepth(s), a, p);
    assert p[|p| - 1] in p;
  }

  /** A row is expanded by one seed at most, the first that reaches it, and a row that the closure brings in by none. */
  lemma ExpandedByOneSeed(src: Source, picks: seq<seq<Ctid>>, stages: seq<set<RowId>>, i: nat, j: nat, a: RowId)
    requires Stages(src, picks, stages) && i < |picks| && j < |picks|
    requires Expanded(src, src.cfg.seeds[i], picks[i], stages[i], a)
             && Expanded(src, src.cfg.seeds[j], picks[j], stages[j], a)
    ensures i == j && a in stages[|stages| - 1] && forall k :: 0 <= k < |stages| ==> (a in stages[k] <==> k > i)
  {
    assert Stage(src, src.cfg.seeds[i], picks[i], stages[i], stages[i + 1]);
    assert Stage(src, src.cfg.seeds[j], picks[j], stages[j], stages[j + 1]);
    ExpandedIsNew(src, src.cfg.seeds[i], picks[i], stages[i], stages[i + 1], a);
    ExpandedIsNew(src, src.cfg.seeds[j], picks[j], stages[j], stages[j + 1], a);
    forall k | 0 <= k < |stages|
      ensures a in stages[k] <==> k > i
      ensures a in stages[k] <==> k > j
    {
      if k <= i { StagesGrow(src, picks, stages, k, i); } else { StagesGrow(src, picks, stages, i + 1, k); }
      if k <= j { StagesGrow(src, picks, stages, k, j); } else { StagesGrow(src, picks, stages, j + 1, k); }
    }
    assert a in stages[j + 1] && a in stages[i + 1] && a !in stages[i] && a !in stages[j];
  }
}
