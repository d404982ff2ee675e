/**
  What a walk must select, stated on the graph of rows and independent of
  any order, frontier or worklist. Walk.dfy proves that the code of
  internal/pkg/dump/walk.go selects exactly this.
 */
module Selection {
  import opened Lists
  import opened Database
  import opened Config
  import opened Catalog
  import opened Graphs

  /** Everything a walk reads. */
  datatype Source = Source(tables: Tables, cat: Catalog, cfg: Config)

  // ---- One step from a row ----

  /** The rows a references. */
  function References(src: Source, a: RowId): set<RowId> {
    set fk, x | fk in src.cat.fks && fk.child == a.table && x in Answer(src.tables, ParentQuery(fk), {a.ctid})
      :: RowId(fk.parent, x)
  }

  /** The rows attached to a by an attach rule, without any cap. */
  function Attached(src: Source, a: RowId): set<RowId> {
    set fk, x | fk in src.cat.fks && fk.parent == a.table && AttachedVia(src.cfg, fk)
        && x in Answer(src.tables, ChildQuery(fk, 0), {a.ctid})
      :: RowId(fk.child, x)
  }

  /** The capped children of a that seed s may expand to. */
  function Children(src: Source, s: Seed, a: RowId): set<RowId> {
    set fk, x | fk in src.cat.fks && fk.parent == a.table && !Excluded(src.cfg, fk.child)
             && x in Answer(src.tables, ChildQuery(fk, ChildLimit(src.cfg, s, fk.child)), {a.ctid})
      :: RowId(fk.child, x)
  }

  /** The step relation of the closure. */
  function Neighbours(src: Source): RowId -> set<RowId> {
    (a: RowId) => References(src, a) + Attached(src, a)
  }

  /** The step relation of a seed's child expansion. */
  function Kids(src: Source, s: Seed): RowId -> set<RowId> {
    (a: RowId) => Children(src, s, a)
  }

  lemma NeighboursInUniverse(src: Source, from: set<RowId>)
    ensures Image(Neighbours(src), from) <= Universe(src.tables)
  {
    forall a, r | a in from && r in Neighbours(src)(a)
      ensures r in Universe(src.tables)
    {
      if r in References(src, a) {
        var fk, x :| fk in src.cat.fks && fk.child == a.table && x in Answer(src.tables, ParentQuery(fk), {a.ctid})
                && r == RowId(fk.parent, x);
        AnswerExists(src.tables, ParentQuery(fk), {a.ctid}, x);
      } else {
        var fk, x :| fk in src.cat.fks && fk.parent == a.table && AttachedVia(src.cfg, fk)
                && x in Answer(src.tables, ChildQuery(fk, 0), {a.ctid}) && r == RowId(fk.child, x);
        AnswerExists(src.tables, ChildQuery(fk, 0), {a.ctid}, x);
      }
    }
  }

  // ---- The whole walk ----

  ghost function SeedRows(s: Seed, pick: seq<Ctid>): set<RowId> {
    set c | c in pick :: RowId(SeedKey(s), c)
  }

  /** after is before with the whole expansion of seed s, and nothing else. */
  ghost predicate Stage(src: Source, s: Seed, pick: seq<Ctid>, before: set<RowId>, after: set<RowId>) {
    forall r :: r in after <==> r in before || Expands(Kids(src, s), SeedRows(s, pick), before, ChildDepth(s), r)
  }

  /** Seed s expands a to its children: a is reached one level before the last, or sooner. */
  ghost predicate Expanded(src: Source, s: Seed, pick: seq<Ctid>, before: set<RowId>, a: RowId) {
    ChildDepth(s) > 0 && Expands(Kids(src, s), SeedRows(s, pick), before, ChildDepth(s) - 1, a)
  }

  /** stages[i] is what the first i seeds select; picks[i] is the answer of seed i's query. */
  ghost predicate Stages(src: Source, picks: seq<seq<Ctid>>, stages: seq<set<RowId>>) {
    && |picks| == |src.cfg.seeds| && |stages| == |picks| + 1
    && stages[0] == {}
    && forall i :: 0 <= i < |picks| ==> Stage(src, src.cfg.seeds[i], picks[i], stages[i], stages[i + 1])
  }

  /** rows is a correct answer of a walk. */
  ghost predicate Selects(src: Source, picks: seq<seq<Ctid>>, stages: seq<set<RowId>>, rows: set<RowId>) {
    Stages(src, picks, stages) && IsClosure(Neighbours(src), stages[|stages| - 1], rows)
  }

  ghost predicate SameGraph(a: Source, b: Source) {
    a.tables == b.tables && a.cfg == b.cfg && Elems(a.cat.fks) == Elems(b.cat.fks)
  }

  lemma SameSteps(a: Source, b: Source, s: Seed)
    requires SameGraph(a, b)
    ensures forall r :: Kids(a, s)(r) == Kids(b, s)(r)
    ensures forall r :: Neighbours(a)(r) == Neighbours(b)(r)
  {
    assert forall fk :: fk in a.cat.fks <==> fk in Elems(a.cat.fks);
    assert forall fk :: fk in b.cat.fks <==> fk in Elems(b.cat.fks);
    assert forall r :: Children(a, s, r) == Children(b, s, r);
    assert forall r :: References(a, r) == References(b, r);
    assert forall r :: Attached(a, r) == Attached(b, r);
  }

  /**
    A walk has one answer: it depends on the snapshot, the configuration and
    the foreign keys as a set, and on no order.
   */
  lemma SelectionUnique(a: Source, b: Source, picks: seq<seq<Ctid>>, sa: seq<set<RowId>>, sb: seq<set<RowId>>,
                        ra: set<RowId>, rb: set<RowId>)
    requires SameGraph(a, b) && Selects(a, picks, sa, ra) && Selects(b, picks, sb, rb)
    ensures sa == sb && ra == rb
  {
    forall i | 0 <= i < |sa|
      ensures sa[i] == sb[i]
    {
      StagesUnique(a, b, picks, sa, sb, i);
    }
    SameSteps(a, b, Seed("", None, None, [], ""));
    forall r
      ensures r in ra <==> r in rb
    {
      SameReachable(Neighbours(a), Neighbours(b), sa[|sa| - 1], r);
    }
  }

  lemma {:induction false} StagesUnique(a: Source, b: Source, picks: seq<seq<Ctid>>, sa: seq<set<RowId>>,
                                        sb: seq<set<RowId>>, i: nat)
    requires SameGraph(a, b) && Stages(a, picks, sa) && Stages(b, picks, sb) && i < |sa|
    ensures sa[i] == sb[i]
    decreases i
  {
    if i > 0 {
      StagesUnique(a, b, picks, sa, sb, i - 1);
      var s, pick := a.cfg.seeds[i - 1], picks[i - 1];
      assert Stage(a, s, pick, sa[i - 1], sa[i - 1 + 1]) && Stage(b, s, pick, sb[i - 1], sb[i - 1 + 1]);
      SameSteps(a, b, s);
      forall r
        ensures r in sa[i] <==> r in sb[i]
      {
        SameExpands(Kids(a, s), Kids(b, s), SeedRows(s, pick), sa[i - 1], ChildDepth(s), r);
      }
    }
  }

  // ---- Where a row of an excluded table can come from ----

  /** Some seed's query returned r. */
  ghost predicate IsSeedRow(src: Source, picks: seq<seq<Ctid>>, r: RowId)
    requires |picks| == |src.cfg.seeds|
  {
    exists i :: 0 <= i < |picks| && r in SeedRows(src.cfg.seeds[i], picks[i])
  }

  /** walk rejects an attach rule whose table is excluded. */
  ghost predicate AttachesOnlyIncluded(cfg: Config) {
    forall a :: a in cfg.attach ==> !Excluded(cfg, Qualify(a.table))
  }

  lemma PathEndsIncluded(src: Source, s: Seed, p: seq<RowId>)
    requires |p| > 1 && Path(Kids(src, s), p)
    ensures !Excluded(src.cfg, p[|p| - 1].table)
  {
    assert p[|p| - 1] in Kids(src, s)(p[|p| - 2]);
  }

  /** Child expansion enters an excluded table only through a seed. */
  lemma {:induction false} ExpandedExcludedIsSeed(src: Source, picks: seq<seq<Ctid>>, stages: seq<set<RowId>>, i: nat,
                                                  r: RowId)
    requires Stages(src, picks, stages) && i < |stages| && r in stages[i] && Excluded(src.cfg, r.table)
    ensures IsSeedRow(src, picks, r)
    decreases i
  {
    if i > 0 {
      var s, pick := src.cfg.seeds[i - 1], picks[i - 1];
      assert Stage(src, s, pick, stages[i - 1], stages[i - 1 + 1]);
      if r in stages[i - 1] {
        ExpandedExcludedIsSeed(src, picks, stages, i - 1, r);
      } else {
        var p :| ExpandsBy(Kids(src, s), SeedRows(s, pick), stages[i - 1], ChildDepth(s), r, p);
        if |p| > 1 {
          PathEndsIncluded(src, s, p);
        }
        assert r in SeedRows(src.cfg.seeds[i - 1], picks[i - 1]);
      }
    }
  }

  /**
    A selected row of an excluded table is a seed row or another selected row
    references it: neither child expansion nor attachment brings one in.
   */
  lemma ExcludedProvenance(src: Source, picks: seq<seq<Ctid>>, stages: seq<set<RowId>>, rows: set<RowId>, r: RowId)
    requires AttachesOnlyIncluded(src.cfg) && Selects(src, picks, stages, rows)
    requires r in rows && Excluded(src.cfg, r.table)
    ensures IsSeedRow(src, picks, r) || exists a :: a in rows && a != r && r in References(src, a)
  {
    var start := stages[|stages| - 1];
    if r in start {
      ExpandedExcludedIsSeed(src, picks, stages, |stages| - 1, r);
    } else {
      var p :| ReachesBy(Neighbours(src), start, r, p);
      var k := PathEnters(Neighbours(src), p, r);
      var a := p[k];
      assert ReachesBy(Neighbours(src), start, a, p[..k + 1]);
      assert r !in Attached(src, a);
      assert r in References(src, a);
    }
  }
}
