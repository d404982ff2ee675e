/** The dump end to end (internal/pkg/dump/dump.go): catalog, walk, script, and what the script restores. */
module Dump {
  import opened Lists
  import opened Database
  import opened Config
  import opened C = Catalog
  import opened Graphs
  import S = Selection
  import W = Walk
  import opened Output

  /** The answers of a database in one snapshot: its catalog, its rows, its transforms and its seed queries. */
  datatype Connection = Connection(raw: RawCatalog, tables: Tables, eval: Evaluator, picks: seq<seq<Ctid>>)

  /** A seed query returns ctids of the seed table. */
  ghost predicate ValidPicks(tables: Tables, cfg: Config, picks: seq<seq<Ctid>>) {
    && |picks| == |cfg.seeds|
    && forall i, c :: 0 <= i < |picks| && c in picks[i] ==> RowId(SeedKey(cfg.seeds[i]), c) in Universe(tables)
  }

  /** script is a dump of the rows in sets: base is the catalog of the database, cat the same with its transforms. */
  ghost predicate Dumps(conn: Connection, cfg: Config, transform: Transform, base: Catalog, cat: Catalog,
                        stages: seq<set<RowId>>, sets: Sets, script: seq<Statement>) {
    Loaded(conn.raw, base) && Transformed(base, transform, cat) && Written(conn, cfg, cat, stages, sets, script)
  }

  /** script is what the walk and the output make of catalog cat. */
  ghost predicate Written(conn: Connection, cfg: Config, cat: Catalog, stages: seq<set<RowId>>, sets: Sets,
                          script: seq<Statement>) {
    && C.Valid(cat) && W.Accepts(cat, cfg)
    && (forall t :: t in sets ==> sets[t] != {})
    && S.Selects(S.Source(conn.tables, cat, cfg), conn.picks, stages, W.Flat(sets))
    && (forall k :: k in cat.keys ==> k in cat.tables)
    && script == Script(conn.tables, conn.eval, cat, sets)
  }

  /** Dump; cfg's transform is passed apart from the rest. */
  method WriteDump(conn: Connection, cfg: Config, transform: Transform) returns (r: Result<seq<Statement>>)
    requires ValidRaw(conn.raw) && |conn.picks| == |cfg.seeds|
    ensures forall base :: Loaded(conn.raw, base) ==> (r.Ok? <==> Applicable(base, transform) && W.Accepts(base, cfg))
    ensures r.Ok? ==> exists base, cat, stages, sets :: Dumps(conn, cfg, transform, base, cat, stages, sets, r.value)
  {
    var base := LoadCatalog(conn.raw);
    ChecksOnce(conn.raw, base, cfg, transform);
    LoadedUntransformed(conn.raw, base);
    var applied := ApplyTransforms(base, transform);
    if applied.Err? {
      return Err(applied.message);
    }
    var cat := applied.value;
    TransformedValid(base, transform, cat);
    SameAccepts(base, cat, cfg);
    assert forall k :: k in cat.keys ==> k in Elems(cat.keys);
    var walked, stages, _ := W.SelectRows(S.Source(conn.tables, cat, cfg), conn.picks);
    if walked.Err? {
      return Err(walked.message);
    }
    var script := WriteData(conn.tables, conn.eval, cat, walked.value);
    assert Written(conn, cfg, cat, stages, walked.value, script);
    assert Dumps(conn, cfg, transform, base, cat, stages, walked.value, script);
    r := Ok(script);
  }

  /** The checks before the data queries come out alike for every catalog that the same answers describe. */
  lemma ChecksOnce(raw: RawCatalog, a: Catalog, cfg: Config, transform: Transform)
    requires Loaded(raw, a)
    ensures forall b :: Loaded(raw, b) ==>
              (Applicable(a, transform) <==> Applicable(b, transform)) && (W.Accepts(a, cfg) <==> W.Accepts(b, cfg))
  {
    forall b | Loaded(raw, b)
      ensures (Applicable(a, transform) <==> Applicable(b, transform)) && (W.Accepts(a, cfg) <==> W.Accepts(b, cfg))
    {
      LoadedUnique(raw, raw, a, b);
      SameAccepts(a, b, cfg);
    }
  }

  lemma LoadedUntransformed(raw: RawCatalog, cat: Catalog)
    requires ValidRaw(raw) && Loaded(raw, cat)
    ensures forall k :: k in cat.tables ==> cat.tables[k].transforms == map[]
  {
    TablesOfKeys(raw.tables);
  }

  lemma SameAccepts(a: Catalog, b: Catalog, cfg: Config)
    requires a.tables.Keys == b.tables.Keys && Elems(a.fks) == Elems(b.fks)
    ensures W.Accepts(a, cfg) <==> W.Accepts(b, cfg)
  {
    assert forall fk :: fk in a.fks <==> fk in Elems(a.fks);
    assert forall fk :: fk in b.fks <==> fk in Elems(b.fks);
    assert forall s: Seed :: SeedKey(s) in a.tables <==> SeedKey(s) in b.tables;
    assert forall c, p :: W.Linked(a, c, p) <==> W.Linked(b, c, p);
    assert forall r :: W.AcceptsRule(a, cfg, r) <==> W.AcceptsRule(b, cfg, r);
  }

  // ---- Determinism ----

  lemma FlatInjective(a: Sets, b: Sets)
    requires (forall t :: t in a ==> a[t] != {}) && (forall t :: t in b ==> b[t] != {})
    requires W.Flat(a) == W.Flat(b)
    ensures a == b
  {
    assert forall t, c :: t in a && c in a[t] ==> RowId(t, c) in W.Flat(a);
    assert forall t, c :: t in b && c in b[t] ==> RowId(t, c) in W.Flat(b);
    forall t
      ensures (t in a <==> t in b) && (t in a ==> a[t] == b[t])
    {
      if t in a {
        var c :| c in a[t];
        assert RowId(t, c) in W.Flat(b);
      }
      if t in b {
        var c :| c in b[t];
        assert RowId(t, c) in W.Flat(a);
      }
    }
  }

  lemma {:induction false} SameCopies(tables: Tables, eval: Evaluator, a: Catalog, b: Catalog, sets: Sets,
                                      keys: seq<string>)
    requires a.tables == b.tables && forall k :: k in keys ==> k in a.tables
    ensures Copies(tables, eval, a, sets, keys) == Copies(tables, eval, b, sets, keys)
  {
    if keys != [] {
      SameCopies(tables, eval, a, b, sets, keys[..|keys| - 1]);
    }
  }

  /** The databases answer alike, their catalog queries in any order. */
  ghost predicate SameAnswers(x: Connection, y: Connection) {
    && x.tables == y.tables && x.picks == y.picks && x.eval == y.eval
    && UniqueKeys(x.raw.tables) && Elems(x.raw.tables) == Elems(y.raw.tables)
    && Elems(x.raw.fks) == Elems(y.raw.fks) && Elems(x.raw.uses) == Elems(y.raw.uses)
  }

  /** The transforms never change which rows are selected. */
  lemma TransformKeepsSelection(x: Connection, y: Connection, cfg: Config, tx: Transform, ty: Transform,
                                b1: Catalog, b2: Catalog, cx: Catalog, cy: Catalog,
                                sx: seq<set<RowId>>, sy: seq<set<RowId>>, setsX: Sets, setsY: Sets,
                                u: seq<Statement>, v: seq<Statement>)
    requires SameAnswers(x, y) && Dumps(x, cfg, tx, b1, cx, sx, setsX, u) && Dumps(y, cfg, ty, b2, cy, sy, setsY, v)
    ensures setsX == setsY
  {
    SameTables(x.raw.tables, y.raw.tables);
    LoadedUnique(x.raw, y.raw, b1, b2);
    S.SelectionUnique(S.Source(x.tables, cx, cfg), S.Source(y.tables, cy, cfg), x.picks, sx, sy,
                      W.Flat(setsX), W.Flat(setsY));
    FlatInjective(setsX, setsY);
  }

  /** The same data gives the same script each time, in whatever order the server answers the catalog queries. */
  lemma DumpDeterministic(x: Connection, y: Connection, cfg: Config, transform: Transform,
                          b1: Catalog, b2: Catalog, cx: Catalog, cy: Catalog,
                          sx: seq<set<RowId>>, sy: seq<set<RowId>>, setsX: Sets, setsY: Sets,
                          u: seq<Statement>, v: seq<Statement>)
    requires SameAnswers(x, y)
    requires Dumps(x, cfg, transform, b1, cx, sx, setsX, u) && Dumps(y, cfg, transform, b2, cy, sy, setsY, v)
    ensures u == v
  {
    TransformKeepsSelection(x, y, cfg, transform, transform, b1, b2, cx, cy, sx, sy, setsX, setsY, u, v);
    SameTables(x.raw.tables, y.raw.tables);
    LoadedUnique(x.raw, y.raw, b1, b2);
    TransformedUnique(b1, b2, transform, cx, cy);
    SameCopies(x.tables, x.eval, cx, cy, setsX, cx.keys);
  }

  // ---- Every selected row is a row of a dumped table ----

  ghost function Dumpable(src: S.Source): set<RowId> {
    set r | r in Universe(src.tables) && r.table in src.cat.tables
  }

  lemma ChildrenDumpable(src: S.Source, s: Seed, a: RowId, r: RowId)
    requires C.Valid(src.cat) && r in S.Children(src, s, a)
    ensures r in Dumpable(src)
  {
    var fk, x :| fk in src.cat.fks && fk.parent == a.table && !Excluded(src.cfg, fk.child)
            && x in Answer(src.tables, ChildQuery(fk, ChildLimit(src.cfg, s, fk.child)), {a.ctid})
            && r == RowId(fk.child, x);
    AnswerExists(src.tables, ChildQuery(fk, ChildLimit(src.cfg, s, fk.child)), {a.ctid}, x);
  }

  lemma {:induction false} StagesDumpable(src: S.Source, picks: seq<seq<Ctid>>, stages: seq<set<RowId>>, i: nat)
    requires C.Valid(src.cat) && W.Accepts(src.cat, src.cfg) && ValidPicks(src.tables, src.cfg, picks)
    requires S.Stages(src, picks, stages) && i < |stages|
    ensures stages[i] <= Dumpable(src)
    decreases i
  {
    if i > 0 {
      StagesDumpable(src, picks, stages, i - 1);
      var s, pick := src.cfg.seeds[i - 1], picks[i - 1];
      assert S.Stage(src, s, pick, stages[i - 1], stages[i - 1 + 1]);
      forall r | r in stages[i] && r !in stages[i - 1]
        ensures r in Dumpable(src)
      {
        var p :| ExpandsBy(S.Kids(src, s), S.SeedRows(s, pick), stages[i - 1], ChildDepth(s), r, p);
        if |p| > 1 {
          assert p[|p| - 1] in S.Kids(src, s)(p[|p| - 2]);
          ChildrenDumpable(src, s, p[|p| - 2], r);
        }
      }
    }
  }

  lemma SelectedDumpable(src: S.Source, picks: seq<seq<Ctid>>, stages: seq<set<RowId>>, rows: set<RowId>)
    requires C.Valid(src.cat) && W.Accepts(src.cat, src.cfg) && ValidPicks(src.tables, src.cfg, picks)
    requires S.Selects(src, picks, stages, rows)
    ensures rows <= Dumpable(src)
  {
    StagesDumpable(src, picks, stages, |stages| - 1);
    ClosureIsLeastFixpoint(S.Neighbours(src), stages[|stages| - 1], rows);
    S.NeighboursInUniverse(src, Dumpable(src));
    assert Closed(S.Neighbours(src), Dumpable(src));
  }

  /**
    The script restores exactly the selection: every selected row is a row of
    a dumped table, and each table loads one row per selected row, in stable
    order, and nothing else.
   */
  lemma DumpExact(conn: Connection, cfg: Config, cat: Catalog, stages: seq<set<RowId>>, sets: Sets,
                  script: seq<Statement>, key: string)
    requires Written(conn, cfg, cat, stages, sets, script) && ValidPicks(conn.tables, cfg, conn.picks)
    requires forall t :: t in conn.tables ==> DistinctCtids(conn.tables[t])
    ensures forall r :: r in W.Flat(sets) ==>
              r.table in cat.tables && exists rec :: rec in Rows(conn.tables, r.table) && rec.ctid == r.ctid
    ensures key !in cat.tables ==> LoadedRows(Load(EMPTY, script), key) == []
    ensures key in cat.tables ==>
              var recs := Picked(Rows(conn.tables, key), Ctids(sets, key));
              && LoadedRows(Load(EMPTY, script), key) ==
                 Map((rec: Record) => OutRow(conn.eval, cat.tables[key], rec.row), recs)
              && DistinctCtids(recs)
              && forall rec :: rec in recs <==> rec in Rows(conn.tables, key) && RowId(key, rec.ctid) in W.Flat(sets)
  {
    var src := S.Source(conn.tables, cat, cfg);
    SelectedDumpable(src, conn.picks, stages, W.Flat(sets));
    ScriptLoads(conn.tables, conn.eval, cat, sets);
    PickedExactlyOnce(Rows(conn.tables, key), Ctids(sets, key));
    assert forall c :: c in Ctids(sets, key) <==> RowId(key, c) in W.Flat(sets);
  }

  // ---- Every foreign key resolves ----

  ghost predicate KeySet(fk: ForeignKey, row: Row) {
    forall i :: 0 <= i < |fk.childCols| ==> Column(row, fk.childCols[i]) != Null
  }

  ghost predicate SourceResolves(tables: Tables, fks: seq<ForeignKey>) {
    forall fk, c :: fk in fks && c in Rows(tables, fk.child) && KeySet(fk, c.row) ==>
                      exists p :: p in Rows(tables, fk.parent) && Refers(fk, c.row, p.row)
  }

  ghost predicate TargetResolves(db: Target, fks: seq<ForeignKey>) {
    forall fk, c :: fk in fks && c in LoadedRows(db, fk.child) && KeySet(fk, c) ==>
                      exists p :: p in LoadedRows(db, fk.parent) && Refers(fk, c, p)
  }

  ghost predicate CopiedAsIs(t: Table, columns: seq<string>) {
    forall c :: c in columns ==> c in t.columns && c !in t.transforms
  }

  /** No column of a foreign key is transformed. */
  ghost predicate KeysUntouched(cat: Catalog) {
    forall fk :: fk in cat.fks ==>
      && fk.child in cat.tables && CopiedAsIs(cat.tables[fk.child], fk.childCols)
      && fk.parent in cat.tables && CopiedAsIs(cat.tables[fk.parent], fk.parentCols)
  }

  lemma KeyCopied(eval: Evaluator, t: Table, row: Row, columns: seq<string>, i: nat)
    requires Distinct(t.columns) && CopiedAsIs(t, columns) && i < |columns|
    ensures Column(OutRow(eval, t, row), columns[i]) == Column(row, columns[i])
  {
    OutRowColumn(eval, t, row, columns[i]);
  }

  /** The parent of a selected child row is selected and loaded, with its key unchanged. */
  lemma LoadedParent(conn: Connection, cfg: Config, cat: Catalog, stages: seq<set<RowId>>, sets: Sets, fk: ForeignKey,
                     c: Record, p: Record)
    requires C.Valid(cat) && KeysUntouched(cat) && fk in cat.fks
    requires S.Selects(S.Source(conn.tables, cat, cfg), conn.picks, stages, W.Flat(sets))
    requires c in Rows(conn.tables, fk.child) && c.ctid in Ctids(sets, fk.child)
    requires p in Rows(conn.tables, fk.parent) && Refers(fk, c.row, p.row)
    ensures p in Picked(Rows(conn.tables, fk.parent), Ctids(sets, fk.parent))
    ensures Refers(fk, OutRow(conn.eval, cat.tables[fk.child], c.row), OutRow(conn.eval, cat.tables[fk.parent], p.row))
  {
    var src := S.Source(conn.tables, cat, cfg);
    var a, r := RowId(fk.child, c.ctid), RowId(fk.parent, p.ctid);
    assert a in W.Flat(sets);
    assert p.ctid in Answer(conn.tables, ParentQuery(fk), {c.ctid});
    assert r in S.References(src, a);
    ClosureIsLeastFixpoint(S.Neighbours(src), stages[|stages| - 1], W.Flat(sets));
    assert r in Image(S.Neighbours(src), W.Flat(sets)) by { assert r in S.Neighbours(src)(a); }
    PickedMember(Rows(conn.tables, fk.parent), Ctids(sets, fk.parent), p);
    forall i | 0 <= i < |fk.childCols|
      ensures Column(OutRow(conn.eval, cat.tables[fk.child], c.row), fk.childCols[i]) == Column(c.row, fk.childCols[i])
      ensures Column(OutRow(conn.eval, cat.tables[fk.parent], p.row), fk.parentCols[i]) ==
              Column(p.row, fk.parentCols[i])
    {
      KeyCopied(conn.eval, cat.tables[fk.child], c.row, fk.childCols, i);
      KeyCopied(conn.eval, cat.tables[fk.parent], p.row, fk.parentCols, i);
    }
  }

  /** A loaded child row with a full key finds its parent among the loaded rows. */
  lemma LoadedChildResolves(conn: Connection, cfg: Config, cat: Catalog, stages: seq<set<RowId>>, sets: Sets,
                            fk: ForeignKey, row: Row)
    requires C.Valid(cat) && KeysUntouched(cat) && SourceResolves(conn.tables, cat.fks) && fk in cat.fks
    requires S.Selects(S.Source(conn.tables, cat, cfg), conn.picks, stages, W.Flat(sets))
    requires row in Expected(conn.tables, conn.eval, cat, sets, fk.child) && KeySet(fk, row)
    ensures exists p :: p in Expected(conn.tables, conn.eval, cat, sets, fk.parent) && Refers(fk, row, p)
  {
    LoadedFrom(conn, cat, sets, fk.child, row);
    var c :| LoadedAs(conn, cat, sets, fk.child, row, c);
    forall i | 0 <= i < |fk.childCols|
      ensures Column(c.row, fk.childCols[i]) != Null
    {
      KeyCopied(conn.eval, cat.tables[fk.child], c.row, fk.childCols, i);
    }
    assert KeySet(fk, c.row);
    var p :| p in Rows(conn.tables, fk.parent) && Refers(fk, c.row, p.row);
    LoadedParent(conn, cfg, cat, stages, sets, fk, c, p);
    ParentLoads(conn, cat, sets, fk.parent, p);
  }

  /**
    If every foreign key of the catalog resolves in the snapshot and no key
    column is transformed, every one of them resolves in the database the
    script restores, whatever the seeds, depths, caps, exclusions and attach
    rules.
   */
  lemma DumpConsistent(conn: Connection, cfg: Config, cat: Catalog, stages: seq<set<RowId>>, sets: Sets,
                       script: seq<Statement>)
    requires Written(conn, cfg, cat, stages, sets, script)
    requires SourceResolves(conn.tables, cat.fks) && KeysUntouched(cat)
    ensures TargetResolves(Load(EMPTY, script), cat.fks)
  {
    var db := Load(EMPTY, script);
    ScriptLoads(conn.tables, conn.eval, cat, sets);
    forall fk, row | fk in cat.fks && row in LoadedRows(db, fk.child) && KeySet(fk, row)
      ensures exists p :: p in LoadedRows(db, fk.parent) && Refers(fk, row, p)
    {
      LoadedChildResolves(conn, cfg, cat, stages, sets, fk, row);
    }
  }

  /** The selected row c loads as row. */
  ghost predicate LoadedAs(conn: Connection, cat: Catalog, sets: Sets, key: string, row: Row, c: Record)
    requires key in cat.tables
  {
    c in Rows(conn.tables, key) && c.ctid in Ctids(sets, key) && row == OutRow(conn.eval, cat.tables[key], c.row)
  }

  lemma LoadedFrom(conn: Connection, cat: Catalog, sets: Sets, key: string, row: Row)
    requires key in cat.tables && row in Expected(conn.tables, conn.eval, cat, sets, key)
    ensures exists c :: LoadedAs(conn, cat, sets, key, row, c)
  {
    var i :| 0 <= i < |Expected(conn.tables, conn.eval, cat, sets, key)|
            && Expected(conn.tables, conn.eval, cat, sets, key)[i] == row;
    var c := Picked(Rows(conn.tables, key), Ctids(sets, key))[i];
    PickedMember(Rows(conn.tables, key), Ctids(sets, key), c);
    assert LoadedAs(conn, cat, sets, key, row, c);
  }

  lemma ParentLoads(conn: Connection, cat: Catalog, sets: Sets, key: string, p: Record)
    requires key in cat.tables && p in Picked(Rows(conn.tables, key), Ctids(sets, key))
    ensures OutRow(conn.eval, cat.tables[key], p.row) in Expected(conn.tables, conn.eval, cat, sets, key)
  {
    var i :| 0 <= i < |Picked(Rows(conn.tables, key), Ctids(sets, key))|
            && Picked(Rows(conn.tables, key), Ctids(sets, key))[i] == p;
    assert Expected(conn.tables, conn.eval, cat, sets, key)[i] == OutRow(conn.eval, cat.tables[key], p.row);
  }

  // ---- Sequences ----

  /** Some row of a table that draws from the sequence name is selected. */
  ghost predicate InUse(raw: RawCatalog, sets: Sets, name: string) {
    exists use, ctid :: Drawn(raw, name, use) && RowId(use.table, ctid) in W.Flat(sets)
  }

  lemma UsedIffSelected(s: Sequence, sets: Sets)
    ensures UsedBy(s, sets) <==> exists use, ctid :: use in s.uses && RowId(use.table, ctid) in W.Flat(sets)
  {
    if UsedBy(s, sets) {
      var use :| use in s.uses && Ctids(sets, use.table) != {};
      var ctid :| ctid in Ctids(sets, use.table);
      assert RowId(use.table, ctid) in W.Flat(sets);
    }
    if use, ctid :| use in s.uses && RowId(use.table, ctid) in W.Flat(sets) {
      assert ctid in Ctids(sets, use.table);
    }
  }

  lemma SetIffInUse(raw: RawCatalog, base: Catalog, sets: Sets, db: Target, name: string)
    requires Loaded(raw, base) && SequencesSet(db, sets, base.sequences)
    ensures name in db.last <==> InUse(raw, sets, name)
  {
    if name in db.last {
      var s :| s in base.sequences && UsedBy(s, sets) && s.name == name;
      UsedIffSelected(s, sets);
      var use, ctid :| use in s.uses && RowId(use.table, ctid) in W.Flat(sets);
      LoadedUses(raw, base, name, use);
    }
    if use, ctid :| Drawn(raw, name, use) && RowId(use.table, ctid) in W.Flat(sets) {
      LoadedUses(raw, base, name, use);
      var s :| s in base.sequences && s.name == name && use in s.uses;
      UsedIffSelected(s, sets);
    }
  }

  /** The script sets a sequence exactly when a selected row's table draws from it, as the server says. */
  lemma SequenceIsSetIff(conn: Connection, cfg: Config, transform: Transform, base: Catalog, cat: Catalog,
                         stages: seq<set<RowId>>, sets: Sets, script: seq<Statement>, name: string)
    requires Dumps(conn, cfg, transform, base, cat, stages, sets, script)
    ensures name in Load(EMPTY, script).last <==> InUse(conn.raw, sets, name)
  {
    ScriptLoads(conn.tables, conn.eval, cat, sets);
    SetIffInUse(conn.raw, base, sets, Load(EMPTY, script), name);
  }

  /**
    After the script is loaded, the next value of an ascending sequence exceeds
    every value in every column that draws from it, as the server says.
   */
  lemma NextValueExceedsLoaded(conn: Connection, cfg: Config, transform: Transform, base: Catalog, cat: Catalog,
                               stages: seq<set<RowId>>, sets: Sets, script: seq<Statement>,
                               name: string, use: SequenceUse, increment: int)
    requires Dumps(conn, cfg, transform, base, cat, stages, sets, script) && Drawn(conn.raw, name, use) && increment > 0
    ensures forall row, n :: row in LoadedRows(Load(EMPTY, script), use.table) && Column(row, use.column) == Int(n) ==>
              name in Load(EMPTY, script).last && Load(EMPTY, script).last[name] + increment > n
  {
    LoadedUses(conn.raw, base, name, use);
    var s :| s in base.sequences && s.name == name && use in s.uses;
    forall row, n | row in LoadedRows(Load(EMPTY, script), use.table) && Column(row, use.column) == Int(n)
      ensures name in Load(EMPTY, script).last && Load(EMPTY, script).last[name] + increment > n
    {
      assert Holds(Load(EMPTY, script), s.uses, n);
      NextValueIsFree(conn.tables, conn.eval, cat, sets, s, n, increment);
    }
  }
}
