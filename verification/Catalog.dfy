/** The dumpable tables, their foreign keys and sequences (internal/pkg/dump/catalog.go). */
module Catalog {
  import opened Lists
  import opened Database
  import opened Config

  datatype Table = Table(
    schema: string,
    name: string,
    columns: seq<string>,
    transforms: map<string, string>)
  {
    function Key(): string {
      schema + "." + name
    }
  }

  datatype SequenceUse = SequenceUse(table: string, column: string)

  datatype Sequence = Sequence(name: string, uses: seq<SequenceUse>)

  datatype Catalog = Catalog(
    tables: map<string, Table>,
    keys: seq<string>,
    fks: seq<ForeignKey>,
    sequences: seq<Sequence>)

  /** What loadCatalog establishes and every later phase relies on. */
  ghost predicate Valid(cat: Catalog) {
    && Elems(cat.keys) == cat.tables.Keys && Distinct(cat.keys)
    && (forall fk :: fk in cat.fks ==> fk.child in cat.tables && fk.parent in cat.tables)
    && (forall s, u :: s in cat.sequences && u in s.uses ==> u.table in cat.tables)
    && (forall i, j :: 0 <= i < j < |cat.sequences| ==> cat.sequences[i].name != cat.sequences[j].name)
    && (forall t :: t in cat.tables ==> Distinct(cat.tables[t].columns))
  }

  /** catalog.children and catalog.parents. */
  method Children(cat: Catalog, parent: string) returns (out: seq<ForeignKey>)
    ensures forall fk :: fk in out <==> fk in cat.fks && fk.parent == parent
  {
    out := [];
    for i := 0 to |cat.fks|
      invariant forall fk :: fk in out <==> fk in cat.fks[..i] && fk.parent == parent
    {
      if cat.fks[i].parent == parent {
        out := out + [cat.fks[i]];
      }
    }
  }

  method Parents(cat: Catalog, child: string) returns (out: seq<ForeignKey>)
    ensures forall fk :: fk in out <==> fk in cat.fks && fk.child == child
  {
    out := [];
    for i := 0 to |cat.fks|
      invariant forall fk :: fk in out <==> fk in cat.fks[..i] && fk.child == child
    {
      if cat.fks[i].child == child {
        out := out + [cat.fks[i]];
      }
    }
  }

  // ---- loadCatalog ----

  /** Lexicographic order on (table, column), the order of the columns of one sequence. */
  predicate UseLe(a: SequenceUse, b: SequenceUse) {
    if a.table == b.table then StringLe(a.column, b.column) else StringLe(a.table, b.table)
  }

  lemma UseOrder()
    ensures TotalOrder(UseLe)
  {
    StringOrder();
  }

  /** strings.Join(columns, ",") */
  function Joined(columns: seq<string>): string {
    if columns == [] then ""
    else if |columns| == 1 then columns[0]
    else columns[0] + "," + Joined(columns[1..])
  }

  /** By child, then parent, then child columns. Two keys that differ only in their parent columns tie. */
  predicate KeyLe(a: ForeignKey, b: ForeignKey) {
    if a.child != b.child then StringLe(a.child, b.child)
    else if a.parent != b.parent then StringLe(a.parent, b.parent)
    else StringLe(Joined(a.childCols), Joined(b.childCols))
  }

  lemma KeyOrder()
    ensures Preorder(KeyLe)
  {
    StringOrder();
  }

  /** Both sorts go by their first field and look at the next ones only among equals. */
  lemma SortsAreLexicographic(a: ForeignKey, b: ForeignKey, u: SequenceUse, v: SequenceUse)
    ensures a.child != b.child ==> (KeyLe(a, b) <==> StringLe(a.child, b.child))
    ensures a.child == b.child && a.parent != b.parent ==> (KeyLe(a, b) <==> StringLe(a.parent, b.parent))
    ensures u.table != v.table ==> (UseLe(u, v) <==> StringLe(u.table, v.table))
    ensures u.table == v.table ==> (UseLe(u, v) <==> StringLe(u.column, v.column))
  {
  }

  /** The foreign keys between the tables in keys, as they come. */
  function Between(fks: seq<ForeignKey>, keys: set<string>): (r: seq<ForeignKey>)
    ensures forall fk :: fk in r <==> fk in fks && fk.child in keys && fk.parent in keys
  {
    if fks == [] then []
    else
      var init, last := fks[..|fks| - 1], fks[|fks| - 1];
      assert fks == init + [last];
      if last.child in keys && last.parent in keys then Between(init, keys) + [last] else Between(init, keys)
  }

  /** The rows the three catalog queries return, in whatever order the server sends them. */
  datatype RawCatalog = RawCatalog(tables: seq<Table>, fks: seq<ForeignKey>, uses: seq<(string, SequenceUse)>)

  ghost predicate ValidRaw(raw: RawCatalog) {
    forall t :: t in raw.tables ==> Distinct(t.columns) && t.transforms == map[]
  }

  /** Different tables have different keys, as they do unless a schema or a name contains a dot. */
  ghost predicate UniqueKeys(tables: seq<Table>) {
    forall t, u :: t in tables && u in tables && t.Key() == u.Key() ==> t == u
  }

  /** The tables by key; of tables that share a key the last one stays. */
  function TablesOf(tables: seq<Table>): map<string, Table> {
    if tables == [] then map[]
    else TablesOf(tables[..|tables| - 1])[tables[|tables| - 1].Key() := tables[|tables| - 1]]
  }

  lemma {:induction false} TablesOfKeys(tables: seq<Table>)
    ensures TablesOf(tables).Keys == set t | t in tables :: t.Key()
    ensures forall k :: k in TablesOf(tables) ==> TablesOf(tables)[k] in tables && TablesOf(tables)[k].Key() == k
  {
    if tables != [] {
      TablesOfKeys(tables[..|tables| - 1]);
      assert tables == tables[..|tables| - 1] + [tables[|tables| - 1]];
    }
  }

  /** Of tables that share a key the last one stays. */
  lemma {:induction false} LastOneStays(tables: seq<Table>, i: nat)
    requires i < |tables| && forall j :: i < j < |tables| ==> tables[j].Key() != tables[i].Key()
    ensures Stays(tables, tables[i])
  {
    if i < |tables| - 1 {
      LastOneStays(tables[..|tables| - 1], i);
    }
  }

  lemma SameTables(a: seq<Table>, b: seq<Table>)
    requires UniqueKeys(a) && Elems(a) == Elems(b)
    ensures TablesOf(a) == TablesOf(b)
  {
    TablesOfKeys(a);
    TablesOfKeys(b);
    assert forall t :: t in a <==> t in Elems(a);
    assert forall t :: t in b <==> t in Elems(b);
    assert TablesOf(a).Keys == TablesOf(b).Keys;
  }

  ghost predicate Stays(tables: seq<Table>, t: Table) {
    t.Key() in TablesOf(tables) && TablesOf(tables)[t.Key()] == t
  }

  /** In some order any of the tables stays. */
  lemma LastStays(tables: seq<Table>, i: nat)
    requires i < |tables|
    ensures exists other: seq<Table> :: multiset(other) == multiset(tables) && Stays(other, tables[i])
  {
    var rest := tables[..i] + tables[i + 1..];
    var other := rest + [tables[i]];
    assert tables == tables[..i] + [tables[i]] + tables[i + 1..];
    LastOneStays(other, |other| - 1);
    assert Stays(other, tables[i]);
  }

  /**
    The order in which the server returns the tables does not matter exactly when
    no two different ones share a key.
   */
  lemma TableOrderIsFreeIff(tables: seq<Table>)
    ensures UniqueKeys(tables) <==>
            forall a: seq<Table>, b: seq<Table> ::
              multiset(a) == multiset(tables) && multiset(b) == multiset(tables) ==> TablesOf(a) == TablesOf(b)
  {
    if UniqueKeys(tables) {
      forall a: seq<Table>, b: seq<Table> | multiset(a) == multiset(tables) && multiset(b) == multiset(tables)
        ensures TablesOf(a) == TablesOf(b)
      {
        SameElems(a, tables);
        SameElems(b, tables);
        SameTables(tables, a);
        SameTables(tables, b);
      }
    } else {
      var i, j :| 0 <= i < |tables| && 0 <= j < |tables| && tables[i].Key() == tables[j].Key()
              && tables[i] != tables[j];
      LastStays(tables, i);
      LastStays(tables, j);
      var a :| multiset(a) == multiset(tables) && Stays(a, tables[i]);
      var b :| multiset(b) == multiset(tables) && Stays(b, tables[j]);
      assert TablesOf(a) != TablesOf(b);
    }
  }

  lemma SameElems<T>(a: seq<T>, b: seq<T>)
    requires multiset(a) == multiset(b)
    ensures Elems(a) == Elems(b)
  {
    forall x
      ensures x in Elems(a) <==> x in Elems(b)
    {
      assert x in a <==> x in multiset(a);
      assert x in b <==> x in multiset(b);
    }
  }

  function TableKeys(raw: RawCatalog): set<string> {
    set t | t in raw.tables :: t.Key()
  }

  /** The columns drawing from the sequence name that belong to a dumpable table. */
  function UsesOf(raw: RawCatalog, name: string): set<SequenceUse> {
    set p | p in raw.uses && p.0 == name && p.1.table in TableKeys(raw) :: p.1
  }

  function SequenceNames(raw: RawCatalog): set<string> {
    set p | p in raw.uses && p.1.table in TableKeys(raw) :: p.0
  }

  ghost predicate SequencesLoaded(raw: RawCatalog, sequences: seq<Sequence>, names: seq<string>) {
    && |sequences| == |names|
    && forall i :: 0 <= i < |names| ==>
         && sequences[i].name == names[i]
         && Elems(sequences[i].uses) == UsesOf(raw, names[i])
         && Distinct(sequences[i].uses) && Ordered(UseLe, sequences[i].uses)
  }

  /** The catalog loadCatalog must return, up to the order of foreign keys that tie. */
  ghost predicate Loaded(raw: RawCatalog, cat: Catalog) {
    && cat.tables == TablesOf(raw.tables)
    && Elems(cat.keys) == TableKeys(raw) && Distinct(cat.keys) && Ordered(StringLe, cat.keys)
    && multiset(cat.fks) == multiset(Between(raw.fks, TableKeys(raw))) && Ordered(KeyLe, cat.fks)
    && exists names ::
         && Elems(names) == SequenceNames(raw) && Distinct(names) && Ordered(StringLe, names)
         && SequencesLoaded(raw, cat.sequences, names)
  }

  method LoadTables(raw: RawCatalog) returns (tables: map<string, Table>)
    ensures tables == TablesOf(raw.tables)
  {
    tables := map[];
    for i := 0 to |raw.tables|
      invariant tables == TablesOf(raw.tables[..i])
    {
      var t := raw.tables[i];
      assert raw.tables[..i + 1][..i] == raw.tables[..i];
      tables := tables[t.Key() := t];
    }
    assert raw.tables[..|raw.tables|] == raw.tables;
  }

  /** Keeps the foreign keys between dumpable tables and sorts them. */
  method LoadForeignKeys(raw: RawCatalog, tables: map<string, Table>) returns (fks: seq<ForeignKey>)
    ensures multiset(fks) == multiset(Between(raw.fks, tables.Keys)) && Ordered(KeyLe, fks)
  {
    var kept: seq<ForeignKey> := [];
    for i := 0 to |raw.fks|
      invariant kept == Between(raw.fks[..i], tables.Keys)
    {
      assert raw.fks[..i + 1][..i] == raw.fks[..i];
      if raw.fks[i].child in tables && raw.fks[i].parent in tables {
        kept := kept + [raw.fks[i]];
      }
    }
    assert raw.fks[..|raw.fks|] == raw.fks;
    KeyOrder();
    fks := SortList(KeyLe, kept);
  }

  /** A catalog follows exactly the foreign keys between its tables. */
  lemma LoadedKeys(raw: RawCatalog, cat: Catalog, fk: ForeignKey)
    requires multiset(cat.fks) == multiset(Between(raw.fks, TableKeys(raw)))
    ensures fk in cat.fks <==> fk in raw.fks && fk.child in TableKeys(raw) && fk.parent in TableKeys(raw)
  {
    assert fk in cat.fks <==> fk in multiset(cat.fks);
    assert fk in Between(raw.fks, TableKeys(raw)) <==> fk in multiset(Between(raw.fks, TableKeys(raw)));
  }

  method LoadSequences(raw: RawCatalog) returns (sequences: seq<Sequence>, names: seq<string>)
    ensures Elems(names) == SequenceNames(raw) && Distinct(names) && Ordered(StringLe, names)
    ensures SequencesLoaded(raw, sequences, names)
  {
    StringOrder();
    names := Sort(StringLe, SequenceNames(raw));
    sequences := [];
    for i := 0 to |names|
      invariant SequencesLoaded(raw, sequences, names[..i])
    {
      UseOrder();
      var uses := Sort(UseLe, UsesOf(raw, names[i]));
      sequences := sequences + [Sequence(names[i], uses)];
    }
    assert names[..|names|] == names;
  }

  /** The server named this use for this sequence, and the table is dumpable. */
  ghost predicate Drawn(raw: RawCatalog, name: string, use: SequenceUse) {
    (name, use) in raw.uses && exists t :: t in raw.tables && t.Key() == use.table
  }

  /** A catalog's sequence has exactly the columns that the server named for it. */
  lemma LoadedUses(raw: RawCatalog, cat: Catalog, name: string, use: SequenceUse)
    requires Loaded(raw, cat)
    ensures (exists s :: s in cat.sequences && s.name == name && use in s.uses) <==> Drawn(raw, name, use)
  {
    var names :| Elems(names) == SequenceNames(raw) && Distinct(names) && Ordered(StringLe, names)
              && SequencesLoaded(raw, cat.sequences, names);
    if s :| s in cat.sequences && s.name == name && use in s.uses {
      var i :| 0 <= i < |names| && cat.sequences[i] == s;
      assert use in Elems(s.uses);
      assert use in UsesOf(raw, name);
    }
    if Drawn(raw, name, use) {
      assert (name, use).1.table in TableKeys(raw);
      assert name in Elems(names);
      var i :| 0 <= i < |names| && names[i] == name;
      assert use in UsesOf(raw, name);
      assert use in Elems(cat.sequences[i].uses);
    }
  }

  /** A catalog has a sequence exactly when the server named it for some column of a dumpable table. */
  lemma LoadedNames(raw: RawCatalog, cat: Catalog, name: string)
    requires Loaded(raw, cat)
    ensures (exists s :: s in cat.sequences && s.name == name) <==> exists use :: Drawn(raw, name, use)
  {
    var names :| Elems(names) == SequenceNames(raw) && Distinct(names) && Ordered(StringLe, names)
              && SequencesLoaded(raw, cat.sequences, names);
    if s :| s in cat.sequences && s.name == name {
      assert name in Elems(names);
      var p :| p in raw.uses && p.1.table in TableKeys(raw) && p.0 == name;
      assert Drawn(raw, name, p.1);
    }
    if use :| Drawn(raw, name, use) {
      LoadedUses(raw, cat, name, use);
    }
  }

  method LoadCatalog(raw: RawCatalog) returns (cat: Catalog)
    requires ValidRaw(raw)
    ensures Loaded(raw, cat) && Valid(cat)
  {
    StringOrder();
    var tables := LoadTables(raw);
    TablesOfKeys(raw.tables);
    var keys := Sort(StringLe, tables.Keys);
    var fks := LoadForeignKeys(raw, tables);
    var sequences, names := LoadSequences(raw);
    cat := Catalog(tables, keys, fks, sequences);
    forall fk | fk in cat.fks
      ensures fk.child in cat.tables && fk.parent in cat.tables
    {
      LoadedKeys(raw, cat, fk);
    }
    forall s, u | s in cat.sequences && u in s.uses
      ensures u.table in cat.tables
    {
      var i :| 0 <= i < |names| && cat.sequences[i] == s;
      assert u in Elems(cat.sequences[i].uses);
    }
  }

  lemma LoadedKeysUnique(r1: RawCatalog, r2: RawCatalog, c1: Catalog, c2: Catalog)
    requires Elems(r1.fks) == Elems(r2.fks) && TableKeys(r1) == TableKeys(r2)
    requires Loaded(r1, c1) && Loaded(r2, c2)
    ensures Elems(c1.fks) == Elems(c2.fks)
  {
    forall fk
      ensures fk in Elems(c1.fks) <==> fk in Elems(c2.fks)
    {
      LoadedKeys(r1, c1, fk);
      LoadedKeys(r2, c2, fk);
      assert fk in r1.fks <==> fk in Elems(r1.fks);
      assert fk in r2.fks <==> fk in Elems(r2.fks);
    }
  }

  lemma SequencesUnique(r1: RawCatalog, r2: RawCatalog, s1: seq<Sequence>, s2: seq<Sequence>, names: seq<string>)
    requires Elems(r1.uses) == Elems(r2.uses) && TableKeys(r1) == TableKeys(r2)
    requires SequencesLoaded(r1, s1, names) && SequencesLoaded(r2, s2, names)
    ensures s1 == s2
  {
    UseOrder();
    assert forall p :: p in r1.uses <==> p in Elems(r1.uses);
    assert forall p :: p in r2.uses <==> p in Elems(r2.uses);
    forall i | 0 <= i < |names|
      ensures s1[i] == s2[i]
    {
      assert UsesOf(r1, names[i]) == UsesOf(r2, names[i]);
      SortedUnique(UseLe, s1[i].uses, s2[i].uses);
    }
  }

  /**
    The order in which the server returns foreign keys and sequences does not
    reach the catalog; that of the tables does not either, by SameTables.
   */
  lemma LoadedUnique(r1: RawCatalog, r2: RawCatalog, c1: Catalog, c2: Catalog)
    requires TablesOf(r1.tables) == TablesOf(r2.tables) && Elems(r1.fks) == Elems(r2.fks)
             && Elems(r1.uses) == Elems(r2.uses)
    requires Loaded(r1, c1) && Loaded(r2, c2)
    ensures c1.tables == c2.tables && c1.keys == c2.keys && c1.sequences == c2.sequences
            && Elems(c1.fks) == Elems(c2.fks)
  {
    StringOrder();
    TablesOfKeys(r1.tables);
    TablesOfKeys(r2.tables);
    assert forall p :: p in r1.uses <==> p in Elems(r1.uses);
    assert forall p :: p in r2.uses <==> p in Elems(r2.uses);
    assert TableKeys(r1) == TableKeys(r2);
    SortedUnique(StringLe, c1.keys, c2.keys);
    LoadedKeysUnique(r1, r2, c1, c2);
    var n1 :| Elems(n1) == SequenceNames(r1) && Distinct(n1) && Ordered(StringLe, n1)
            && SequencesLoaded(r1, c1.sequences, n1);
    var n2 :| Elems(n2) == SequenceNames(r2) && Distinct(n2) && Ordered(StringLe, n2)
            && SequencesLoaded(r2, c2.sequences, n2);
    assert SequenceNames(r1) == SequenceNames(r2);
    SortedUnique(StringLe, n1, n2);
    SequencesUnique(r1, r2, c1.sequences, c2.sequences, n1);
  }

  // ---- applyTransforms ----

  /** Config.Transform: table name to column to SQL expression. */
  type Transform = map<string, map<string, string>>

  /** Every transformed column exists. */
  predicate Applicable(cat: Catalog, transform: Transform) {
    forall name :: name in transform ==>
                     && Qualify(name) in cat.tables
                     && forall c :: c in transform[name] ==> c in cat.tables[Qualify(name)].columns
  }

  /** Of the names that stand for key and set column, names[i] is the last. */
  ghost predicate LastSetter(transform: Transform, names: seq<string>, key: string, column: string, i: nat) {
    && i < |names| && SetsAt(transform, names, key, column, i)
    && forall j :: i < j < |names| ==> !SetsAt(transform, names, key, column, j)
  }

  ghost predicate SetsAt(transform: Transform, names: seq<string>, key: string, column: string, i: nat)
    requires i < |names|
  {
    names[i] in transform && Qualify(names[i]) == key && column in transform[names[i]]
  }

  /** A column is transformed exactly when some name sets it, and by the last one that does. */
  ghost predicate ColumnSet(transform: Transform, names: seq<string>, key: string, transforms: map<string, string>,
                            column: string) {
    && (column in transforms <==> exists i: nat :: LastSetter(transform, names, key, column, i))
    && forall i: nat :: LastSetter(transform, names, key, column, i) ==>
         column in transforms && transforms[column] == transform[names[i]][column]
  }

  /** after is before with the transforms of names, and nothing else changed. */
  ghost predicate TransformedBy(before: map<string, Table>, transform: Transform, names: seq<string>,
                                after: map<string, Table>) {
    && after.Keys == before.Keys
    && forall k :: k in before ==>
         && after[k] == before[k].(transforms := after[k].transforms)
         && forall c :: ColumnSet(transform, names, k, after[k].transforms, c)
  }

  ghost predicate Transformed(base: Catalog, transform: Transform, cat: Catalog) {
    && cat == base.(tables := cat.tables)
    && exists names ::
         && Elems(names) == transform.Keys && Distinct(names) && Ordered(StringLe, names)
         && TransformedBy(base.tables, transform, names, cat.tables)
  }

  function Restricted(columns: map<string, string>, names: seq<string>): map<string, string> {
    map c | c in columns && c in names :: columns[c]
  }

  lemma OneMoreColumn(transforms: map<string, string>, columns: map<string, string>, names: seq<string>, c: string)
    requires c in columns
    ensures (transforms + Restricted(columns, names))[c := columns[c]] == transforms + Restricted(columns, names + [c])
  {
  }

  /** All the columns, whatever their order. */
  lemma AllColumns(columns: map<string, string>, names: seq<string>)
    requires Elems(names) == columns.Keys
    ensures Restricted(columns, names) == columns
    ensures forall c :: c in names <==> c in columns
  {
    assert forall c :: c in names <==> c in Elems(names);
  }

  /** The columns of one table in the order the loop takes them, which does not matter here. */
  method ColumnNames(columns: map<string, string>) returns (names: seq<string>)
    ensures Restricted(columns, names) == columns
    ensures forall c :: c in names <==> c in columns
  {
    names := SortStrings(columns.Keys);
    AllColumns(columns, names);
  }

  /** The inner loop: the columns of one table. */
  method AttachColumns(t: Table, columns: map<string, string>) returns (r: Result<Table>)
    ensures r.Ok? <==> forall c :: c in columns ==> c in t.columns
    ensures r.Ok? ==> r.value == t.(transforms := t.transforms + columns)
  {
    var names := ColumnNames(columns);
    var transforms := t.transforms;
    for i := 0 to |names|
      invariant forall c :: c in names[..i] ==> c in t.columns
      invariant transforms == t.transforms + Restricted(columns, names[..i])
    {
      var column := names[i];
      if column !in t.columns {
        return Err("dump: transform: column not found");
      }
      OneMoreColumn(t.transforms, columns, names[..i], column);
      assert names[..i + 1] == names[..i] + [column];
      transforms := transforms[column := columns[column]];
    }
    assert names[..|names|] == names;
    r := Ok(t.(transforms := transforms));
  }

  /** One more name: it is the last setter of the columns it sets, and changes no other. */
  lemma {:induction false} OneMoreName(transform: Transform, names: seq<string>, name: string, key: string,
                                       before: map<string, string>, after: map<string, string>, c: string)
    requires name in transform && ColumnSet(transform, names, key, before, c)
    requires after == if Qualify(name) == key then before + transform[name] else before
    ensures ColumnSet(transform, names + [name], key, after, c)
  {
    var all, n := names + [name], |names|;
    assert forall i :: 0 <= i < n ==> (SetsAt(transform, all, key, c, i) <==> SetsAt(transform, names, key, c, i));
    if SetsAt(transform, all, key, c, n) {
      assert LastSetter(transform, all, key, c, n);
    } else {
      assert forall i: nat :: LastSetter(transform, all, key, c, i) <==> LastSetter(transform, names, key, c, i);
    }
  }

  lemma OneMoreTable(before: map<string, Table>, transform: Transform, names: seq<string>, name: string,
                     now: map<string, Table>, t: Table)
    requires name in transform && Qualify(name) in before && TransformedBy(before, transform, names, now)
    requires t == now[Qualify(name)].(transforms := now[Qualify(name)].transforms + transform[name])
    ensures TransformedBy(before, transform, names + [name], now[Qualify(name) := t])
  {
    var after := now[Qualify(name) := t];
    forall k, c | k in before
      ensures ColumnSet(transform, names + [name], k, after[k].transforms, c)
    {
      OneMoreName(transform, names, name, k, now[k].transforms, after[k].transforms, c);
    }
  }

  /** name names a table that has all the columns it transforms. */
  predicate AppliesTo(tables: map<string, Table>, transform: Transform, name: string) {
    && name in transform && Qualify(name) in tables
    && forall c :: c in transform[name] ==> c in tables[Qualify(name)].columns
  }

  /** The outer loop's body: the columns of the table that name stands for. */
  method ApplyOne(base: map<string, Table>, transform: Transform, ghost names: seq<string>, name: string,
                  tables: map<string, Table>)
    returns (r: Result<map<string, Table>>)
    requires name in transform && TransformedBy(base, transform, names, tables)
    ensures r.Ok? <==> AppliesTo(base, transform, name)
    ensures r.Ok? ==> TransformedBy(base, transform, names + [name], r.value)
  {
    var key := Qualify(name);
    if key !in tables {
      return Err("dump: transform: table not found");
    }
    assert tables[key].columns == base[key].columns;
    var t := AttachColumns(tables[key], transform[name]);
    if t.Err? {
      return Err(t.message);
    }
    OneMoreTable(base, transform, names, name, tables, t.value);
    r := Ok(tables[key := t.value]);
  }

  /** applyTransforms: an error exactly when a transform names an unknown table or column. */
  method ApplyTransforms(cat: Catalog, transform: Transform) returns (r: Result<Catalog>)
    requires forall k :: k in cat.tables ==> cat.tables[k].transforms == map[]
    ensures r.Ok? <==> Applicable(cat, transform)
    ensures r.Ok? ==> Transformed(cat, transform, r.value)
  {
    var names := SortStrings(transform.Keys);
    var tables := cat.tables;
    for i := 0 to |names|
      invariant TransformedBy(cat.tables, transform, names[..i], tables)
      invariant forall j :: 0 <= j < i ==> AppliesTo(cat.tables, transform, names[j])
    {
      assert names[i] in Elems(names);
      var applied := ApplyOne(cat.tables, transform, names[..i], names[i], tables);
      if applied.Err? {
        return Err(applied.message);
      }
      assert names[..i + 1] == names[..i] + [names[i]];
      tables := applied.value;
    }
    assert names[..|names|] == names;
    assert forall n :: n in transform ==> n in Elems(names);
    r := Ok(cat.(tables := tables));
  }

  lemma TransformedTablesUnique(base: map<string, Table>, transform: Transform, names: seq<string>,
                                a: map<string, Table>, b: map<string, Table>)
    requires TransformedBy(base, transform, names, a) && TransformedBy(base, transform, names, b)
    ensures a == b
  {
    forall k | k in base
      ensures a[k] == b[k]
    {
      forall c
        ensures (c in a[k].transforms <==> c in b[k].transforms)
                && (c in a[k].transforms ==> a[k].transforms[c] == b[k].transforms[c])
      {
        assert ColumnSet(transform, names, k, a[k].transforms, c) && ColumnSet(transform, names, k, b[k].transforms, c);
      }
      assert a[k].transforms == b[k].transforms;
    }
  }

  lemma TransformedUnique(base: Catalog, other: Catalog, transform: Transform, a: Catalog, b: Catalog)
    requires base.tables == other.tables && Transformed(base, transform, a) && Transformed(other, transform, b)
    ensures a.tables == b.tables
  {
    StringOrder();
    var n1 :| Elems(n1) == transform.Keys && Distinct(n1) && Ordered(StringLe, n1)
            && TransformedBy(base.tables, transform, n1, a.tables);
    var n2 :| Elems(n2) == transform.Keys && Distinct(n2) && Ordered(StringLe, n2)
            && TransformedBy(other.tables, transform, n2, b.tables);
    SortedUnique(StringLe, n1, n2);
    TransformedTablesUnique(base.tables, transform, n1, a.tables, b.tables);
  }

  lemma TransformedValid(base: Catalog, transform: Transform, cat: Catalog)
    requires Valid(base) && Transformed(base, transform, cat)
    ensures Valid(cat)
  {
  }
}
