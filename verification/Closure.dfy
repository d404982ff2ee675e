/**
  What the closure of a walk adds (internal/pkg/dump/walk.go and sql.go),
  stated on rows, their positions and the configuration as it is written.
 */
module Closure {
  import opened Database
  import opened Config
  import C = Catalog
  import opened Graphs
  import opened Selection
  import W = Walk

  // ---- One step ----

  /** Row i of fk's child table is c, row j of its parent table is p, and c references p. */
  ghost predicate ReferenceAt(tables: Tables, fk: ForeignKey, c: RowId, p: RowId, i: nat, j: nat) {
    var children, parents := Rows(tables, fk.child), Rows(tables, fk.parent);
    && i < |children| && c == RowId(fk.child, children[i].ctid)
    && j < |parents| && p == RowId(fk.parent, parents[j].ctid)
    && Refers(fk, children[i].row, parents[j].row)
  }

  ghost predicate Reference(tables: Tables, fk: ForeignKey, c: RowId, p: RowId) {
    exists i: nat, j: nat :: ReferenceAt(tables, fk, c, p, i, j)
  }

  /** Some attach rule names the tables of the key. */
  ghost predicate Ruled(cfg: Config, fk: ForeignKey) {
    exists rule :: rule in cfg.attach && Names(rule.table, fk.child) && Names(rule.to, fk.parent)
  }

  /** r comes with a: a references it, or it references a by the key of an attach rule. */
  ghost predicate ComesWith(src: Source, a: RowId, r: RowId) {
    exists fk :: fk in src.cat.fks
              && (Reference(src.tables, fk, a, r) || (Ruled(src.cfg, fk) && Reference(src.tables, fk, r, a)))
  }

  lemma ParentAnswered(tables: Tables, fk: ForeignKey, a: RowId, x: Ctid)
    ensures fk.child == a.table && x in Answer(tables, ParentQuery(fk), {a.ctid}) <==>
            Reference(tables, fk, a, RowId(fk.parent, x))
  {
    var children, parents := Rows(tables, fk.child), Rows(tables, fk.parent);
    if fk.child == a.table && x in Answer(tables, ParentQuery(fk), {a.ctid}) {
      var c, p :| c in children && c.ctid == a.ctid && p in parents && Refers(fk, c.row, p.row) && x == p.ctid;
      var i, j :| 0 <= i < |children| && children[i] == c && 0 <= j < |parents| && parents[j] == p;
      assert ReferenceAt(tables, fk, a, RowId(fk.parent, x), i, j);
    }
  }

  lemma ChildAnswered(tables: Tables, fk: ForeignKey, a: RowId, x: Ctid)
    ensures fk.parent == a.table && x in Answer(tables, ChildQuery(fk, 0), {a.ctid}) <==>
            Reference(tables, fk, RowId(fk.child, x), a)
  {
    var children, parents := Rows(tables, fk.child), Rows(tables, fk.parent);
    if fk.parent == a.table && x in Answer(tables, ChildQuery(fk, 0), {a.ctid}) {
      var p :| p in parents && p.ctid == a.ctid && x in Limited(0, Referencing(fk, p.row, children));
      ReferencingMember(fk, p.row, children, x);
      var c :| c in children && c.ctid == x && Refers(fk, c.row, p.row);
      var i, j :| 0 <= i < |children| && children[i] == c && 0 <= j < |parents| && parents[j] == p;
      assert ReferenceAt(tables, fk, RowId(fk.child, x), a, i, j);
    }
    if i: nat, j: nat :| ReferenceAt(tables, fk, RowId(fk.child, x), a, i, j) {
      ReferencingMember(fk, parents[j].row, children, x);
      assert x in Limited(0, Referencing(fk, parents[j].row, children));
    }
  }

  /** A step of the closure leads from a row exactly to the rows that come with it. */
  lemma NeighbourIff(src: Source, a: RowId, r: RowId)
    ensures r in Neighbours(src)(a) <==> ComesWith(src, a, r)
  {
    forall fk: ForeignKey
      ensures fk.child == a.table && r.table == fk.parent && r.ctid in Answer(src.tables, ParentQuery(fk), {a.ctid})
              <==> Reference(src.tables, fk, a, r)
      ensures fk.parent == a.table && r.table == fk.child && r.ctid in Answer(src.tables, ChildQuery(fk, 0), {a.ctid})
              <==> Reference(src.tables, fk, r, a)
      ensures AttachedVia(src.cfg, fk) <==> Ruled(src.cfg, fk)
    {
      ParentAnswered(src.tables, fk, a, r.ctid);
      ChildAnswered(src.tables, fk, a, r.ctid);
      forall rule | rule in src.cfg.attach
        ensures Names(rule.table, fk.child) <==> Qualify(rule.table) == fk.child
        ensures Names(rule.to, fk.parent) <==> Qualify(rule.to) == fk.parent
      {
        QualifyOnce(rule.table);
        QualifyOnce(rule.to);
      }
    }
    assert r in References(src, a) <==> exists fk :: fk in src.cat.fks && Reference(src.tables, fk, a, r);
    assert r in Attached(src, a) <==>
           exists fk :: fk in src.cat.fks && Ruled(src.cfg, fk) && Reference(src.tables, fk, r, a);
  }

  // ---- A whole walk ----

  /** Everything that comes with a row of s is in s. */
  ghost predicate Whole(src: Source, s: set<RowId>) {
    forall a, r :: a in s && ComesWith(src, a, r) ==> r in s
  }

  /** r comes with another selected row. */
  ghost predicate ForAnother(src: Source, rows: set<RowId>, r: RowId) {
    exists a :: a in rows && a != r && ComesWith(src, a, r)
  }

  /** A row the closure brings in comes with another selected row. */
  lemma BroughtIn(src: Source, start: set<RowId>, rows: set<RowId>, r: RowId)
    requires IsClosure(Neighbours(src), start, rows) && r in rows - start
    ensures ForAnother(src, rows, r)
  {
    var p :| ReachesBy(Neighbours(src), start, r, p);
    var k := PathEnters(Neighbours(src), p, r);
    assert ReachesBy(Neighbours(src), start, p[k], p[..k + 1]);
    NeighbourIff(src, p[k], r);
  }

  lemma WholeIsClosed(src: Source, s: set<RowId>)
    ensures Whole(src, s) <==> Closed(Neighbours(src), s)
  {
    forall a, r
      ensures r in Neighbours(src)(a) <==> ComesWith(src, a, r)
    {
      NeighbourIff(src, a, r);
    }
  }

  /**
    What a walk selects beyond its seeds: everything that comes with a selected
    row, every such row for another selected row's sake, and no more than any
    set with these properties must hold.
   */
  lemma ClosureOnRows(src: Source, picks: seq<seq<Ctid>>, stages: seq<set<RowId>>, rows: set<RowId>)
    requires Selects(src, picks, stages, rows)
    ensures stages[|stages| - 1] <= rows && Whole(src, rows)
    ensures forall r :: r in rows && r !in stages[|stages| - 1] ==> ForAnother(src, rows, r)
    ensures forall other :: stages[|stages| - 1] <= other && Whole(src, other) ==> rows <= other
  {
    var start := stages[|stages| - 1];
    ClosureIsLeastFixpoint(Neighbours(src), start, rows);
    WholeIsClosed(src, rows);
    forall r | r in rows && r !in start
      ensures ForAnother(src, rows, r)
    {
      BroughtIn(src, start, rows, r);
    }
    forall other | start <= other && Whole(src, other)
      ensures rows <= other
    {
      WholeIsClosed(src, other);
    }
  }

  // ---- The checks of walk ----

  /** A seed's rows are those its query names in the table that the seed names. */
  lemma SeedRowsIff(s: Seed, pick: seq<Ctid>, r: RowId)
    ensures r in SeedRows(s, pick) <==> Names(s.table, r.table) && r.ctid in pick
  {
    QualifyOnce(s.table);
  }

  ghost predicate RuleHolds(cat: C.Catalog, cfg: Config, rule: AttachRule) {
    && (exists fk :: fk in cat.fks && Names(rule.table, fk.child) && Names(rule.to, fk.parent))
    && forall key, p :: Names(rule.table, key) && p in cfg.exclude ==> !Matches(p, key)
  }

  /**
    A walk begins when every seed names a table, and every attach rule has a key
    between the tables it names and attaches one that no pattern excludes.
   */
  lemma AcceptsIff(cat: C.Catalog, cfg: Config)
    ensures W.Accepts(cat, cfg) <==>
            && (forall s :: s in cfg.seeds ==> exists key :: key in cat.tables && Names(s.table, key))
            && (forall rule :: rule in cfg.attach ==> RuleHolds(cat, cfg, rule))
  {
    forall s | s in cfg.seeds
      ensures SeedKey(s) in cat.tables <==> exists key :: key in cat.tables && Names(s.table, key)
    {
      QualifyOnce(s.table);
    }
    forall rule | rule in cfg.attach
      ensures W.AcceptsRule(cat, cfg, rule) <==> RuleHolds(cat, cfg, rule)
    {
      QualifyOnce(rule.table);
      QualifyOnce(rule.to);
    }
  }
}
