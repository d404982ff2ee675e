/**
  The row selection of a dump, as internal/pkg/dump/walk.go performs it:
  growing sets of ctids, frontiers and worklists keyed by table. Every loop
  takes the tables in an arbitrary order, so nothing proved here rests on one.
 */
module Walk {
  import opened Lists
  import opened Database
  import opened Config
  import C = Catalog
  import opened Graphs
  import opened Selection

  /** At most this many ctids go into one query. */
  const BATCH_SIZE: Positive := 5000

  // ---- Lists of ctids keyed by table: frontier, next, work, found ----

  type Worklist = map<string, seq<Ctid>>

  function TagSet(table: string, ctids: set<Ctid>): set<RowId> {
    set c | c in ctids :: RowId(table, c)
  }

  function Tag(table: string, ctids: seq<Ctid>): set<RowId> {
    TagSet(table, Elems(ctids))
  }

  ghost function Ids(w: Worklist): set<RowId> {
    set t, c | t in w && c in w[t] :: RowId(t, c)
  }

  /** w[table] = append(w[table], ctids...) */
  function Append(w: Worklist, table: string, ctids: seq<Ctid>): Worklist {
    w[table := (if table in w then w[table] else []) + ctids]
  }

  lemma IdsAppend(w: Worklist, table: string, ctids: seq<Ctid>)
    ensures Ids(Append(w, table, ctids)) == Ids(w) + Tag(table, ctids)
  {
    var w' := Append(w, table, ctids);
    forall r
      ensures r in Ids(w') <==> r in Ids(w) + Tag(table, ctids)
    {
      assert r in Ids(w') <==> r.table in w' && r.ctid in w'[r.table];
      assert r in Ids(w) <==> r.table in w && r.ctid in w[r.table];
    }
  }

  function TagSeq(table: string, ctids: seq<Ctid>): (r: seq<RowId>)
    ensures |r| == |ctids| && Elems(r) == Tag(table, ctids)
    ensures Distinct(ctids) ==> Distinct(r)
  {
    var r := seq(|ctids|, i requires 0 <= i < |ctids| => RowId(table, ctids[i]));
    assert forall i :: 0 <= i < |ctids| ==> r[i] in r && ctids[i] in Elems(ctids);
    r
  }

  ghost predicate NoEmptyList(w: Worklist) {
    forall t :: t in w ==> w[t] != []
  }

  /** Bookkeeping of the new rows: those found before, plus those a further add contributes. */
  lemma NewRows(next: set<RowId>, first: set<RowId>, now: set<RowId>, more: set<RowId>)
    requires first <= now
    ensures next + (now - first) + (more - now) == next + (now + more - first)
  {
  }

  lemma NewRowsChain(first: set<RowId>, now: set<RowId>, later: set<RowId>)
    requires first <= now <= later
    ensures (now - first) + (later - now) == later - first
  {
  }

  lemma Grown(next: set<RowId>, first: set<RowId>, now: set<RowId>, later: set<RowId>, listed: set<RowId>,
              listed': set<RowId>)
    requires first <= now <= later && listed == next + (now - first) && listed' == listed + (later - now)
    ensures listed' == next + (later - first)
  {
  }

  lemma ImageUnion(next: RowId -> set<RowId>, a: set<RowId>, b: set<RowId>)
    ensures Image(next, a + b) == Image(next, a) + Image(next, b)
  {
  }

  /** The rows of the tables in keys. */
  ghost function Part(w: Worklist, keys: set<string>): set<RowId> {
    set r | r in Ids(w) && r.table in keys
  }

  lemma PartStep(w: Worklist, keys: set<string>, key: string)
    requires key in w && key !in keys
    ensures Part(w, keys + {key}) == Part(w, keys) + Tag(key, w[key])
  {
    forall r
      ensures r in Part(w, keys + {key}) <==> r in Part(w, keys) + Tag(key, w[key])
    {
      assert r in Ids(w) <==> r.table in w && r.ctid in w[r.table];
    }
  }

  /** The rows reached from one more table of the worklist. */
  lemma PartGrown(next: RowId -> set<RowId>, w: Worklist, rest: set<string>, key: string, first: set<RowId>,
                  now: set<RowId>, later: set<RowId>)
    requires rest <= w.Keys && key in rest
    requires now == first + Image(next, Part(w, w.Keys - rest)) && later == now + Image(next, Tag(key, w[key]))
    ensures later == first + Image(next, Part(w, w.Keys - (rest - {key})))
  {
    ImageUnion(next, Part(w, w.Keys - rest), Tag(key, w[key]));
    PartStep(w, w.Keys - rest, key);
    assert w.Keys - (rest - {key}) == w.Keys - rest + {key};
  }

  lemma PartAll(w: Worklist)
    ensures Part(w, {}) == {} && Part(w, w.Keys) == Ids(w)
  {
  }

  ghost function Flat(sets: map<string, set<Ctid>>): set<RowId> {
    set t, c | t in sets && c in sets[t] :: RowId(t, c)
  }

  lemma FlatAdd(sets: map<string, set<Ctid>>, table: string, c: Ctid)
    ensures Flat(sets[table := (if table in sets then sets[table] else {}) + {c}]) == Flat(sets) + {RowId(table, c)}
  {
    var sets' := sets[table := (if table in sets then sets[table] else {}) + {c}];
    forall r
      ensures r in Flat(sets') <==> r in Flat(sets) + {RowId(table, c)}
    {
      assert r in Flat(sets') <==> r.table in sets' && r.ctid in sets'[r.table];
      assert r in Flat(sets) <==> r.table in sets && r.ctid in sets[r.table];
    }
  }

  lemma TagAppend(table: string, ctids: seq<Ctid>, c: Ctid)
    ensures Tag(table, ctids + [c]) == Tag(table, ctids) + {RowId(table, c)}
  {
    ElemsConcat(ctids, [c]);
  }

  /** rowSet: the selection so far, grouped by table. */
  class RowSet {
    var sets: map<string, set<Ctid>>
    ghost var contents: set<RowId>

    constructor ()
      ensures Valid() && contents == {}
    {
      sets := map[];
      contents := {};
    }

    /** contents flattens sets, and a table has an entry only once it has a row. */
    ghost predicate Valid()
      reads this
    {
      contents == Flat(sets) && forall t :: t in sets ==> sets[t] != {}
    }

    /** Adds rows to the selection and lists those that were not in it, each once. */
    method Add(table: string, ctids: seq<Ctid>) returns (added: seq<Ctid>)
      requires Valid()
      modifies this
      ensures Valid()
      ensures contents == old(contents) + Tag(table, ctids)
      ensures Distinct(added) && Tag(table, added) == Tag(table, ctids) - old(contents)
    {
      added := [];
      for i := 0 to |ctids|
        invariant Valid()
        invariant contents == old(contents) + Tag(table, ctids[..i])
        invariant Distinct(added) && Tag(table, added) == Tag(table, ctids[..i]) - old(contents)
      {
        var c := ctids[i];
        assert ctids[..i + 1] == ctids[..i] + [c];
        TagAppend(table, ctids[..i], c);
        FlatAdd(sets, table, c);
        var known := if table in sets then sets[table] else {};
        assert c in known <==> RowId(table, c) in contents;
        if c !in known {
          assert c !in added by { assert RowId(table, c) !in Tag(table, added); }
          TagAppend(table, added, c);
          added := added + [c];
          sets := sets[table := known + {c}];
          contents := contents + {RowId(table, c)};
        }
      }
      assert ctids[..|ctids|] == ctids;
    }
  }

  // ---- Queries ----

  /** conn.Query: the rows of the answer in some order, possibly repeated. */
  method QueryStrings(tables: Tables, q: Query, ctids: seq<Ctid>) returns (out: seq<Ctid>)
    ensures Elems(out) == Answer(tables, q, Elems(ctids))
  {
    out := [];
    var rest := Answer(tables, q, Elems(ctids));
    while rest != {}
      invariant Elems(out) + rest == Answer(tables, q, Elems(ctids))
      decreases rest
    {
      var c :| c in rest;
      out, rest := out + [c], rest - {c};
    }
  }

  /** Running a query in chunks of any size selects what one query over all ctids selects. */
  method QueryBatched(tables: Tables, q: Query, ctids: seq<Ctid>, size: Positive) returns (out: seq<Ctid>)
    ensures Elems(out) == Answer(tables, q, Elems(ctids))
  {
    out := [];
    var i := 0;
    assert Answer(tables, q, {}) == {};
    while i < |ctids|
      invariant 0 <= i <= |ctids|
      invariant Elems(out) == Answer(tables, q, Elems(ctids[..i]))
    {
      var j := if i + size < |ctids| then i + size else |ctids|;
      var found := QueryStrings(tables, q, ctids[i..j]);
      assert ctids[..j] == ctids[..i] + ctids[i..j];
      ElemsConcat(ctids[..i], ctids[i..j]);
      AnswerUnion(tables, q, Elems(ctids[..i]), Elems(ctids[i..j]));
      ElemsConcat(out, found);
      out, i := out + found, j;
    }
    assert ctids[..|ctids|] == ctids;
  }

  // ---- What the queries of one table's foreign keys select ----

  ghost function Found(tables: Tables, q: Query, ctids: seq<Ctid>): set<RowId> {
    TagSet(Target(q), Answer(tables, q, Elems(ctids)))
  }

  ghost function ChildrenVia(src: Source, s: Seed, ctids: seq<Ctid>): ForeignKey -> set<RowId> {
    (fk: ForeignKey) =>
      if Excluded(src.cfg, fk.child) then {}
      else Found(src.tables, ChildQuery(fk, ChildLimit(src.cfg, s, fk.child)), ctids)
  }

  ghost function ParentsVia(src: Source, ctids: seq<Ctid>): ForeignKey -> set<RowId> {
    (fk: ForeignKey) => Found(src.tables, ParentQuery(fk), ctids)
  }

  ghost function AttachedRowsVia(src: Source, ctids: seq<Ctid>): ForeignKey -> set<RowId> {
    (fk: ForeignKey) => if AttachedVia(src.cfg, fk) then Found(src.tables, ChildQuery(fk, 0), ctids) else {}
  }

  ghost function Union(f: ForeignKey -> set<RowId>, fks: seq<ForeignKey>): set<RowId> {
    set fk, r | fk in fks && r in f(fk) :: r
  }

  lemma UnionStep(f: ForeignKey -> set<RowId>, fks: seq<ForeignKey>, i: nat)
    requires i < |fks|
    ensures Union(f, fks[..i + 1]) == Union(f, fks[..i]) + f(fks[i])
  {
    assert fks[..i + 1] == fks[..i] + [fks[i]];
  }

  lemma UnionGrown(f: ForeignKey -> set<RowId>, fks: seq<ForeignKey>, i: nat, first: set<RowId>, now: set<RowId>,
                   later: set<RowId>)
    requires i < |fks| && now == first + Union(f, fks[..i]) && later == now + f(fks[i])
    ensures later == first + Union(f, fks[..i + 1])
  {
    UnionStep(f, fks, i);
  }

  lemma FoundPointwise(tables: Tables, q: Query, ctids: seq<Ctid>, r: RowId)
    ensures r in Found(tables, q, ctids) <==>
            r.table == Target(q) && exists c :: c in Elems(ctids) && r.ctid in Answer(tables, q, {c})
  {
    AnswerPointwise(tables, q, Elems(ctids), r.ctid);
  }

  /** The queries of the foreign keys into a table find the children of its rows. */
  lemma ChildrenFound(src: Source, s: Seed, parent: string, ctids: seq<Ctid>, fks: seq<ForeignKey>)
    requires forall fk :: fk in fks <==> fk in src.cat.fks && fk.parent == parent
    ensures Union(ChildrenVia(src, s, ctids), fks) == Image(Kids(src, s), Tag(parent, ctids))
  {
    var f := ChildrenVia(src, s, ctids);
    forall r | r in Union(f, fks)
      ensures r in Image(Kids(src, s), Tag(parent, ctids))
    {
      var fk :| fk in fks && r in f(fk);
      var q := ChildQuery(fk, ChildLimit(src.cfg, s, fk.child));
      FoundPointwise(src.tables, q, ctids, r);
      var c :| c in Elems(ctids) && r.ctid in Answer(src.tables, q, {c});
      assert RowId(parent, c) in Tag(parent, ctids) && r in Children(src, s, RowId(parent, c));
      assert r in Kids(src, s)(RowId(parent, c));
    }
    forall r | r in Image(Kids(src, s), Tag(parent, ctids))
      ensures r in Union(f, fks)
    {
      var a :| a in Tag(parent, ctids) && r in Kids(src, s)(a);
      assert r in Children(src, s, a);
      var fk, x :| fk in src.cat.fks && fk.parent == a.table && !Excluded(src.cfg, fk.child)
              && x in Answer(src.tables, ChildQuery(fk, ChildLimit(src.cfg, s, fk.child)), {a.ctid})
              && r == RowId(fk.child, x);
      FoundPointwise(src.tables, ChildQuery(fk, ChildLimit(src.cfg, s, fk.child)), ctids, r);
      assert r in f(fk);
    }
  }

  /** The queries of a table's foreign keys find the rows its rows reference. */
  lemma ReferencesFound(src: Source, key: string, ctids: seq<Ctid>, fks: seq<ForeignKey>, r: RowId)
    requires forall fk :: fk in fks <==> fk in src.cat.fks && fk.child == key
    ensures r in Union(ParentsVia(src, ctids), fks) <==> exists a :: a in Tag(key, ctids) && r in References(src, a)
  {
    var f := ParentsVia(src, ctids);
    if r in Union(f, fks) {
      var fk :| fk in fks && r in f(fk);
      FoundPointwise(src.tables, ParentQuery(fk), ctids, r);
      var c :| c in Elems(ctids) && r.ctid in Answer(src.tables, ParentQuery(fk), {c});
      assert RowId(key, c) in Tag(key, ctids) && r in References(src, RowId(key, c));
    }
    if a :| a in Tag(key, ctids) && r in References(src, a) {
      var fk, x :| fk in src.cat.fks && fk.child == a.table && x in Answer(src.tables, ParentQuery(fk), {a.ctid})
              && r == RowId(fk.parent, x);
      FoundPointwise(src.tables, ParentQuery(fk), ctids, r);
      assert r in f(fk);
    }
  }

  lemma AttachedFound(src: Source, key: string, ctids: seq<Ctid>, fks: seq<ForeignKey>, r: RowId)
    requires forall fk :: fk in fks <==> fk in src.cat.fks && fk.parent == key
    ensures r in Union(AttachedRowsVia(src, ctids), fks) <==> exists a :: a in Tag(key, ctids) && r in Attached(src, a)
  {
    var f := AttachedRowsVia(src, ctids);
    if r in Union(f, fks) {
      var fk :| fk in fks && r in f(fk);
      FoundPointwise(src.tables, ChildQuery(fk, 0), ctids, r);
      var c :| c in Elems(ctids) && r.ctid in Answer(src.tables, ChildQuery(fk, 0), {c});
      assert RowId(key, c) in Tag(key, ctids) && r in Attached(src, RowId(key, c));
    }
    if a :| a in Tag(key, ctids) && r in Attached(src, a) {
      var fk, x :| fk in src.cat.fks && fk.parent == a.table && AttachedVia(src.cfg, fk)
              && x in Answer(src.tables, ChildQuery(fk, 0), {a.ctid}) && r == RowId(fk.child, x);
      FoundPointwise(src.tables, ChildQuery(fk, 0), ctids, r);
      assert r in f(fk);
    }
  }

  lemma NeighboursFound(src: Source, key: string, ctids: seq<Ctid>, parents: seq<ForeignKey>, children: seq<ForeignKey>)
    requires forall fk :: fk in parents <==> fk in src.cat.fks && fk.child == key
    requires forall fk :: fk in children <==> fk in src.cat.fks && fk.parent == key
    ensures Union(ParentsVia(src, ctids), parents) + Union(AttachedRowsVia(src, ctids), children)
            == Image(Neighbours(src), Tag(key, ctids))
  {
    forall r
      ensures r in Union(ParentsVia(src, ctids), parents) + Union(AttachedRowsVia(src, ctids), children)
              <==> r in Image(Neighbours(src), Tag(key, ctids))
    {
      ReferencesFound(src, key, ctids, parents, r);
      AttachedFound(src, key, ctids, children, r);
      if a :| a in Tag(key, ctids) && r in References(src, a) {
        assert r in Neighbours(src)(a);
      }
      if a :| a in Tag(key, ctids) && r in Attached(src, a) {
        assert r in Neighbours(src)(a);
      }
    }
  }

  lemma LevelsExpand(src: Source, s: Seed, pick: seq<Ctid>, before: set<RowId>, a: RowId)
    ensures a in ExpandedBelow(Kids(src, s), SeedRows(s, pick), before, ChildDepth(s)) <==>
              Expanded(src, s, pick, before, a)
  {
    var depth := ChildDepth(s);
    if depth > 0 {
      WithinIsExpands(Kids(src, s), SeedRows(s, pick), before, depth - 1, a);
    }
  }

  lemma LevelsSelect(src: Source, s: Seed, pick: seq<Ctid>, before: set<RowId>)
    ensures Stage(src, s, pick, before, before + Within(Kids(src, s), SeedRows(s, pick), before, ChildDepth(s)))
  {
    var kids, start, depth := Kids(src, s), SeedRows(s, pick), ChildDepth(s);
    var after := before + Within(kids, start, before, depth);
    forall r
      ensures r in after <==> r in before || Expands(kids, start, before, depth, r)
    {
      WithinIsExpands(kids, start, before, depth, r);
    }
  }

  /** What the levels of a seed select and expand. */
  lemma LevelsAreStage(src: Source, s: Seed, pick: seq<Ctid>, before: set<RowId>, after: set<RowId>,
                       expanded: set<RowId>)
    requires after == before + Within(Kids(src, s), SeedRows(s, pick), before, ChildDepth(s))
    requires expanded == ExpandedBelow(Kids(src, s), SeedRows(s, pick), before, ChildDepth(s))
    ensures Stage(src, s, pick, before, after)
    ensures forall a :: a in expanded <==> Expanded(src, s, pick, before, a)
  {
    LevelsSelect(src, s, pick, before);
    forall a
      ensures a in expanded <==> Expanded(src, s, pick, before, a)
    {
      LevelsExpand(src, s, pick, before, a);
    }
  }

  // ---- The walker ----

  class Walker {
    const src: Source
    const rows: RowSet

    /** Every row that has entered a frontier, in order of entry. */
    ghost var log: seq<RowId>

    constructor (src: Source)
      ensures this.src == src && fresh(rows) && rows.contents == {} && log == [] && Expanding()
    {
      this.src := src;
      rows := new RowSet();
      log := [];
    }

    /** While seeds expand, the selected rows are the rows that have entered a frontier, each once. */
    ghost predicate Expanding()
      reads this, rows
    {
      rows.Valid() && Distinct(log) && Elems(log) == rows.contents
    }

    method Query(q: Query, ctids: seq<Ctid>) returns (found: seq<Ctid>)
      ensures Tag(Target(q), found) == Found(src.tables, q, ctids)
    {
      found := QueryBatched(src.tables, q, ctids, BATCH_SIZE);
    }

    /** rows.add of rows that enter a frontier. */
    method Enter(table: string, ctids: seq<Ctid>) returns (added: seq<Ctid>)
      requires Expanding()
      modifies this, rows
      ensures Expanding() && old(log) <= log
      ensures rows.contents == old(rows.contents) + Tag(table, ctids)
      ensures Tag(table, added) == Tag(table, ctids) - old(rows.contents)
    {
      added := rows.Add(table, ctids);
      DistinctAppend(log, TagSeq(table, added));
      ElemsConcat(log, TagSeq(table, added));
      log := log + TagSeq(table, added);
    }

    /** The children of some rows through one foreign key. */
    method ExpandKey(s: Seed, fk: ForeignKey, ctids: seq<Ctid>, next: Worklist) returns (next': Worklist)
      requires Expanding()
      modifies this, rows
      ensures Expanding() && old(log) <= log
      ensures rows.contents == old(rows.contents) + ChildrenVia(src, s, ctids)(fk)
      ensures Ids(next') == Ids(next) + (rows.contents - old(rows.contents))
    {
      next' := next;
      if !Excluded(src.cfg, fk.child) {
        var found := Query(ChildQuery(fk, ChildLimit(src.cfg, s, fk.child)), ctids);
        var added := Enter(fk.child, found);
        IdsAppend(next', fk.child, added);
        next' := Append(next', fk.child, added);
      }
    }

    /** The body of expandSeed's loop over one parent table of the frontier. */
    method ExpandTable(s: Seed, parent: string, ctids: seq<Ctid>, next: Worklist) returns (next': Worklist)
      requires Expanding()
      modifies this, rows
      ensures Expanding() && old(log) <= log
      ensures rows.contents == old(rows.contents) + Image(Kids(src, s), Tag(parent, ctids))
      ensures Ids(next') == Ids(next) + (rows.contents - old(rows.contents))
    {
      next' := next;
      var fks := C.Children(src.cat, parent);
      ghost var via := ChildrenVia(src, s, ctids);
      for i := 0 to |fks|
        invariant Expanding() && old(log) <= log
        invariant rows.contents == old(rows.contents) + Union(via, fks[..i])
        invariant Ids(next') == Ids(next) + (rows.contents - old(rows.contents))
      {
        ghost var now, listed := rows.contents, next';
        next' := ExpandKey(s, fks[i], ctids, next');
        Grown(Ids(next), old(rows.contents), now, rows.contents, Ids(listed), Ids(next'));
        UnionGrown(via, fks, i, old(rows.contents), now, rows.contents);
      }
      assert fks[..|fks|] == fks;
      ChildrenFound(src, s, parent, ctids, fks);
    }

    /** One level of expandSeed: the frontier's tables in any order. */
    method ExpandLevel(s: Seed, frontier: Worklist) returns (next: Worklist)
      requires Expanding()
      modifies this, rows
      ensures Expanding() && old(log) <= log
      ensures rows.contents == old(rows.contents) + Image(Kids(src, s), Ids(frontier))
      ensures Ids(next) == Image(Kids(src, s), Ids(frontier)) - old(rows.contents)
    {
      next := map[];
      var rest := frontier.Keys;
      PartAll(frontier);
      while rest != {}
        invariant rest <= frontier.Keys
        invariant Expanding() && old(log) <= log
        invariant rows.contents == old(rows.contents) + Image(Kids(src, s), Part(frontier, frontier.Keys - rest))
        invariant Ids(next) == rows.contents - old(rows.contents)
        decreases rest
      {
        var parent :| parent in rest;
        ghost var now := rows.contents;
        next := ExpandTable(s, parent, frontier[parent], next);
        NewRowsChain(old(rows.contents), now, rows.contents);
        PartGrown(Kids(src, s), frontier, rest, parent, old(rows.contents), now, rows.contents);
        rest := rest - {parent};
      }
    }

    /**
      expandSeed: the selection gains exactly the rows reached from the seed's
      rows in at most childDepth capped child steps along rows that no earlier
      seed selected. It looks for the children of the rows in expanded.
     */
    method ExpandSeed(s: Seed, ctids: seq<Ctid>) returns (ghost expanded: set<RowId>)
      requires Expanding()
      modifies this, rows
      ensures Expanding() && old(log) <= log
      ensures Stage(src, s, ctids, old(rows.contents), rows.contents)
      ensures forall a :: a in expanded <==> Expanded(src, s, ctids, old(rows.contents), a)
    {
      expanded := {};
      ghost var before := rows.contents;
      ghost var start := Tag(SeedKey(s), ctids);
      ghost var kids := Kids(src, s);
      var added := Enter(SeedKey(s), ctids);
      IdsAppend(map[], SeedKey(s), added);
      var frontier := Append(map[], SeedKey(s), added);
      for level := 0 to ChildDepth(s)
        invariant Expanding() && old(log) <= log
        invariant rows.contents == before + Within(kids, start, before, level)
        invariant Ids(frontier) == Frontier(kids, start, before, level)
        invariant expanded == ExpandedBelow(kids, start, before, level)
      {
        FrontierSuffices(kids, start, before, level);
        ExpandedOnce(kids, start, before, level);
        expanded := expanded + Ids(frontier);
        frontier := ExpandLevel(s, frontier);
      }
      assert start == SeedRows(s, ctids);
      LevelsAreStage(src, s, ctids, before, rows.contents, expanded);
    }

    // ---- closeSelection ----

    /** The rows that some rows of a table reference or have attached, by table. */
    method FindNeighbours(key: string, ctids: seq<Ctid>) returns (found: Worklist)
      ensures Ids(found) == Image(Neighbours(src), Tag(key, ctids))
    {
      found := map[];
      var parents := C.Parents(src.cat, key);
      ghost var up := ParentsVia(src, ctids);
      for i := 0 to |parents|
        invariant Ids(found) == Union(up, parents[..i])
      {
        var fk := parents[i];
        UnionStep(up, parents, i);
        var ids := Query(ParentQuery(fk), ctids);
        IdsAppend(found, fk.parent, ids);
        found := Append(found, fk.parent, ids);
      }
      assert parents[..|parents|] == parents;
      var children := C.Children(src.cat, key);
      ghost var owned := AttachedRowsVia(src, ctids);
      for i := 0 to |children|
        invariant Ids(found) == Union(up, parents) + Union(owned, children[..i])
      {
        var fk := children[i];
        UnionStep(owned, children, i);
        if AttachedVia(src.cfg, fk) {
          var ids := Query(ChildQuery(fk, 0), ctids);
          IdsAppend(found, fk.child, ids);
          found := Append(found, fk.child, ids);
        }
      }
      assert children[..|children|] == children;
      NeighboursFound(src, key, ctids, parents, children);
    }

    /** Adds what was found, and puts the new rows on the next worklist. */
    method AddFound(found: Worklist, next: Worklist) returns (next': Worklist)
      requires rows.Valid() && NoEmptyList(next)
      modifies rows
      ensures rows.Valid() && NoEmptyList(next')
      ensures rows.contents == old(rows.contents) + Ids(found)
      ensures Ids(next') == Ids(next) + (rows.contents - old(rows.contents))
    {
      next' := next;
      var rest := found.Keys;
      PartAll(found);
      while rest != {}
        invariant rest <= found.Keys
        invariant rows.Valid() && NoEmptyList(next')
        invariant rows.contents == old(rows.contents) + Part(found, found.Keys - rest)
        invariant Ids(next') == Ids(next) + (rows.contents - old(rows.contents))
        decreases rest
      {
        var table :| table in rest;
        NewRows(Ids(next), old(rows.contents), rows.contents, Tag(table, found[table]));
        var added := rows.Add(table, found[table]);
        if |added| > 0 {
          IdsAppend(next', table, added);
          next' := Append(next', table, added);
        } else {
          assert Tag(table, added) == {};
        }
        PartStep(found, found.Keys - rest, table);
        assert found.Keys - (rest - {table}) == found.Keys - rest + {table};
        rest := rest - {table};
      }
    }

    /** One round of closeSelection over the worklist, its tables in any order. */
    method CloseRound(work: Worklist) returns (next: Worklist)
      requires rows.Valid()
      modifies rows
      ensures rows.Valid() && NoEmptyList(next)
      ensures rows.contents == old(rows.contents) + Image(Neighbours(src), Ids(work))
      ensures Ids(next) == rows.contents - old(rows.contents)
    {
      next := map[];
      var rest := work.Keys;
      PartAll(work);
      while rest != {}
        invariant rest <= work.Keys
        invariant rows.Valid() && NoEmptyList(next)
        invariant rows.contents == old(rows.contents) + Image(Neighbours(src), Part(work, work.Keys - rest))
        invariant Ids(next) == rows.contents - old(rows.contents)
        decreases rest
      {
        var key :| key in rest;
        ghost var now := rows.contents;
        var found := FindNeighbours(key, work[key]);
        next := AddFound(found, next);
        NewRowsChain(old(rows.contents), now, rows.contents);
        PartGrown(Neighbours(src), work, rest, key, old(rows.contents), now, rows.contents);
        rest := rest - {key};
      }
    }

    /** Every selected row, as a worklist. */
    method InitialWork() returns (work: Worklist)
      requires rows.Valid()
      ensures Ids(work) == rows.contents && NoEmptyList(work)
    {
      StringOrder();
      work := map[];
      var rest := rows.sets.Keys;
      while rest != {}
        invariant rest <= rows.sets.Keys && work.Keys == rows.sets.Keys - rest
        invariant forall t :: t in work ==> Elems(work[t]) == rows.sets[t] && work[t] != []
        decreases rest
      {
        var key :| key in rest;
        var sorted := Sort(StringLe, rows.sets[key]);
        work, rest := work[key := sorted], rest - {key};
      }
      forall r
        ensures r in Ids(work) <==> r in Flat(rows.sets)
      {
        assert r in Ids(work) <==> r.table in work && r.ctid in Elems(work[r.table]);
        assert r in Flat(rows.sets) <==> r.table in rows.sets && r.ctid in rows.sets[r.table];
      }
    }

    /**
      closeSelection: the selection becomes the rows reachable from it by
      chains of "references" and "attached to" steps, on any graph, in at most
      one round more than there are rows left to add.
     */
    method CloseSelection() returns (ghost rounds: nat)
      requires rows.Valid()
      modifies rows
      ensures rows.Valid()
      ensures IsClosure(Neighbours(src), old(rows.contents), rows.contents)
      ensures rounds <= |Universe(src.tables) - old(rows.contents)| + 1
    {
      ghost var start, universe, next := rows.contents, Universe(src.tables), Neighbours(src);
      var work := InitialWork();
      rounds := 0;
      StartClosing(next, universe, start, work);
      while work != map[]
        invariant rows.Valid() && Closing(next, universe, start, rows.contents, work, rounds)
        decreases RoundsLeft(universe, rows.contents, work)
      {
        ghost var now, pending := rows.contents, work;
        work := CloseRound(work);
        NeighboursInUniverse(src, Ids(pending));
        RoundCloses(next, universe, start, now, pending, rounds, rows.contents, work);
        rounds := rounds + 1;
      }
      DoneClosing(next, universe, start, rows.contents, rounds);
    }
  }

  /** A bound on the rounds to come. */
  ghost function RoundsLeft(universe: set<RowId>, now: set<RowId>, work: Worklist): nat {
    |universe - now| + if work == map[] then 0 else 1
  }

  /** The loop of closeSelection after some rounds. */
  ghost predicate Closing(next: RowId -> set<RowId>, universe: set<RowId>, start: set<RowId>, now: set<RowId>,
                          work: Worklist, rounds: nat) {
    && NoEmptyList(work) && Pending(next, start, now, Ids(work))
    && rounds + RoundsLeft(universe, now, work) <= |universe - start| + 1
  }

  lemma StartClosing(next: RowId -> set<RowId>, universe: set<RowId>, start: set<RowId>, work: Worklist)
    requires NoEmptyList(work) && Ids(work) == start
    ensures Closing(next, universe, start, start, work, 0)
  {
    AllPending(next, start);
  }

  lemma DoneClosing(next: RowId -> set<RowId>, universe: set<RowId>, start: set<RowId>, now: set<RowId>, rounds: nat)
    requires Closing(next, universe, start, now, map[], rounds)
    ensures IsClosure(next, start, now) && rounds <= |universe - start| + 1
  {
    assert Ids(map[]) == {};
    NothingPending(next, start, now);
  }

  lemma RoundCloses(next: RowId -> set<RowId>, universe: set<RowId>, start: set<RowId>, now: set<RowId>,
                    work: Worklist, rounds: nat, later: set<RowId>, more: Worklist)
    requires Closing(next, universe, start, now, work, rounds) && work != map[]
    requires later == now + Image(next, Ids(work)) && Image(next, Ids(work)) <= universe
    requires NoEmptyList(more) && Ids(more) == later - now
    ensures Closing(next, universe, start, later, more, rounds + 1)
    ensures RoundsLeft(universe, later, more) < RoundsLeft(universe, now, work)
  {
    RoundKeeps(next, start, now, Ids(work));
    RoundShrinks(universe, now, later, more);
  }

  /** A worklist without rows has no table, so a next round means the selection grew. */
  lemma RoundShrinks(universe: set<RowId>, now: set<RowId>, later: set<RowId>, work: Worklist)
    requires NoEmptyList(work) && now <= later && Ids(work) == later - now && later - now <= universe
    ensures universe - later <= universe - now
    ensures work == map[] ==> later == now
    ensures work != map[] ==> |universe - later| < |universe - now| && universe - later < universe - now
  {
    if work == map[] {
      assert Ids(work) == {};
    } else {
      var t :| t in work;
      var r := RowId(t, work[t][0]);
      assert r in Ids(work);
      assert r in universe - now && r !in universe - later;
      Subset(universe - later, universe - now - {r});
    }
  }

  lemma {:induction false} Subset(a: set<RowId>, b: set<RowId>)
    requires a <= b
    ensures |a| <= |b|
  {
    if a != {} {
      var x :| x in a;
      Subset(a - {x}, b - {x});
    }
  }

  /** The worklist invariant: all selected rows are reachable, and those not pending have their neighbours selected. */
  ghost predicate Pending(next: RowId -> set<RowId>, start: set<RowId>, now: set<RowId>, pending: set<RowId>) {
    && start <= now && pending <= now
    && Image(next, now - pending) <= now
    && forall r :: r in now ==> Reachable(next, start, r)
  }

  lemma AllPending(next: RowId -> set<RowId>, start: set<RowId>)
    ensures Pending(next, start, start, start)
  {
    assert start - start == {};
    forall r | r in start
      ensures Reachable(next, start, r)
    {
      ReachableStart(next, start, r);
    }
  }

  lemma RoundKeeps(next: RowId -> set<RowId>, start: set<RowId>, now: set<RowId>, pending: set<RowId>)
    requires Pending(next, start, now, pending)
    ensures var later := now + Image(next, pending); Pending(next, start, later, later - now)
  {
    var later := now + Image(next, pending);
    assert later - (later - now) == now == (now - pending) + pending;
    ImageUnion(next, now - pending, pending);
    forall r | r in Image(next, pending)
      ensures Reachable(next, start, r)
    {
      var a :| a in pending && r in next(a);
      ReachableStep(next, start, a, r);
    }
  }

  lemma NothingPending(next: RowId -> set<RowId>, start: set<RowId>, now: set<RowId>)
    requires Pending(next, start, now, {})
    ensures IsClosure(next, start, now)
  {
    assert now - {} == now;
    FixpointIsClosure(next, start, now);
  }

  // ---- walk ----

  predicate Linked(cat: C.Catalog, child: string, parent: string) {
    exists fk :: fk in cat.fks && fk.child == child && fk.parent == parent
  }

  predicate AcceptsRule(cat: C.Catalog, cfg: Config, a: AttachRule) {
    Linked(cat, Qualify(a.table), Qualify(a.to)) && !Excluded(cfg, Qualify(a.table))
  }

  /** The checks walk makes before it sends a data query. */
  predicate Accepts(cat: C.Catalog, cfg: Config) {
    && (forall s :: s in cfg.seeds ==> SeedKey(s) in cat.tables)
    && (forall a :: a in cfg.attach ==> AcceptsRule(cat, cfg, a))
  }

  method CheckSeeds(cat: C.Catalog, cfg: Config) returns (error: Option<string>)
    ensures error.None? <==> forall s :: s in cfg.seeds ==> SeedKey(s) in cat.tables
  {
    for i := 0 to |cfg.seeds|
      invariant forall s :: s in cfg.seeds[..i] ==> SeedKey(s) in cat.tables
    {
      var s := cfg.seeds[i];
      if SeedKey(s) !in cat.tables {
        return Some("dump: seed table " + SeedKey(s) + " not found (or owned by an extension)");
      }
    }
    return None;
  }

  method CheckRule(cat: C.Catalog, cfg: Config, a: AttachRule) returns (error: Option<string>)
    ensures error.None? <==> AcceptsRule(cat, cfg, a)
  {
    var child, parent := Qualify(a.table), Qualify(a.to);
    if !Linked(cat, child, parent) {
      return Some("dump: attach: no foreign key from " + child + " to " + parent);
    }
    if Excluded(cfg, child) {
      return Some("dump: table " + child + " is both attached and excluded");
    }
    return None;
  }

  ghost predicate AcceptsRules(cat: C.Catalog, cfg: Config, rules: seq<AttachRule>) {
    forall i :: 0 <= i < |rules| ==> AcceptsRule(cat, cfg, rules[i])
  }

  lemma OneMoreRule(cat: C.Catalog, cfg: Config, rules: seq<AttachRule>, a: AttachRule)
    ensures AcceptsRules(cat, cfg, rules + [a]) <==> AcceptsRules(cat, cfg, rules) && AcceptsRule(cat, cfg, a)
  {
    var all := rules + [a];
    assert all[|rules|] == a && forall i :: 0 <= i < |rules| ==> all[i] == rules[i];
  }

  lemma RejectedRule(cat: C.Catalog, cfg: Config, rules: seq<AttachRule>, n: nat)
    requires n <= |rules| && !AcceptsRules(cat, cfg, rules[..n])
    ensures !AcceptsRules(cat, cfg, rules)
  {
    var i :| 0 <= i < n && !AcceptsRule(cat, cfg, rules[..n][i]);
    assert !AcceptsRule(cat, cfg, rules[i]);
  }

  method CheckAttach(cat: C.Catalog, cfg: Config) returns (error: Option<string>)
    ensures error.None? <==> AcceptsRules(cat, cfg, cfg.attach)
  {
    for i := 0 to |cfg.attach|
      invariant AcceptsRules(cat, cfg, cfg.attach[..i])
    {
      OneMoreRule(cat, cfg, cfg.attach[..i], cfg.attach[i]);
      assert cfg.attach[..i + 1] == cfg.attach[..i] + [cfg.attach[i]];
      error := CheckRule(cat, cfg, cfg.attach[i]);
      if error.Some? {
        RejectedRule(cat, cfg, cfg.attach, i + 1);
        return;
      }
    }
    assert cfg.attach[..|cfg.attach|] == cfg.attach;
    return None;
  }

  method Check(cat: C.Catalog, cfg: Config) returns (error: Option<string>)
    ensures error.None? <==> Accepts(cat, cfg)
  {
    error := CheckSeeds(cat, cfg);
    if error.None? {
      error := CheckAttach(cat, cfg);
      assert AcceptsRules(cat, cfg, cfg.attach) <==> forall a :: a in cfg.attach ==> AcceptsRule(cat, cfg, a);
    }
  }

  /**
    walk: an error exactly when a seed table is missing or an attach rule has
    no foreign key or an excluded table; otherwise the rows of Selection. Every
    row enters at most one frontier over all seeds and levels (log), and the
    rows that the closure brings in enter none.
   */
  method SelectRows(src: Source, picks: seq<seq<Ctid>>)
    returns (r: Result<map<string, set<Ctid>>>, ghost stages: seq<set<RowId>>, ghost log: seq<RowId>)
    requires |picks| == |src.cfg.seeds|
    ensures r.Ok? <==> Accepts(src.cat, src.cfg)
    ensures r.Ok? ==> Selects(src, picks, stages, Flat(r.value)) && forall t :: t in r.value ==> r.value[t] != {}
    ensures r.Ok? ==> Distinct(log) && Elems(log) == stages[|stages| - 1]
  {
    stages, log := [{}], [];
    var error := Check(src.cat, src.cfg);
    if error.Some? {
      return Err(error.value), stages, log;
    }
    var w := new Walker(src);
    for i := 0 to |src.cfg.seeds|
      invariant w.src == src && fresh(w) && fresh(w.rows) && w.Expanding()
      invariant |stages| == i + 1 && stages[0] == {} && stages[i] == w.rows.contents
      invariant forall j :: 0 <= j < i ==> Stage(src, src.cfg.seeds[j], picks[j], stages[j], stages[j + 1])
    {
      var _ := w.ExpandSeed(src.cfg.seeds[i], picks[i]);
      stages := stages + [w.rows.contents];
    }
    log := w.log;
    ghost var rounds := w.CloseSelection();
    r := Ok(w.rows.sets);
  }
}
