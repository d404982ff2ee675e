/**
  The psql script of a dump (internal/pkg/dump/output.go) and what loading it
  into an empty database leaves there.
 */
module Output {
  import opened Lists
  import opened Database
  import opened C = Catalog

  /** The value of a transform's SQL expression on a row. */
  type Evaluator = (string, Row) -> Value

  datatype Statement =
    | Copy(table: string, columns: seq<string>, rows: seq<seq<Value>>)
    | SetVal(sequence: Sequence)
    | Commit

  type Sets = map<string, set<Ctid>>

  function Ctids(sets: Sets, key: string): set<Ctid> {
    if key in sets then sets[key] else {}
  }

  // ---- copySQL ----

  /** One entry of selectList: the expression of a transformed column, any other column itself. */
  function OutValue(eval: Evaluator, t: Table, row: Row, column: string): Value {
    if column in t.transforms then eval(t.transforms[column], row) else Column(row, column)
  }

  function SelectList(eval: Evaluator, t: Table, row: Row): seq<Value> {
    Map(c => OutValue(eval, t, row, c), t.columns)
  }

  /** The rows with a selected ctid in stable order, which is key order reversed. */
  function Picked(rows: seq<Record>, ctids: set<Ctid>): seq<Record> {
    if rows == [] then []
    else Picked(rows[1..], ctids) + if rows[0].ctid in ctids then [rows[0]] else []
  }

  function CopyRows(eval: Evaluator, t: Table, rows: seq<Record>, ctids: set<Ctid>): seq<seq<Value>> {
    Map((rec: Record) => SelectList(eval, t, rec.row), Picked(rows, ctids))
  }

  /** COPY takes each selected row of the table exactly once, and no other row. */
  lemma {:induction false} PickedExactlyOnce(rows: seq<Record>, ctids: set<Ctid>)
    requires DistinctCtids(rows)
    ensures DistinctCtids(Picked(rows, ctids))
    ensures forall rec :: rec in Picked(rows, ctids) <==> rec in rows && rec.ctid in ctids
  {
    if rows != [] {
      PickedExactlyOnce(rows[1..], ctids);
      assert rows == [rows[0]] + rows[1..];
    }
  }

  lemma {:induction false} PickedMember(rows: seq<Record>, ctids: set<Ctid>, rec: Record)
    ensures rec in Picked(rows, ctids) <==> rec in rows && rec.ctid in ctids
  {
    if rows != [] {
      PickedMember(rows[1..], ctids, rec);
      assert rows == [rows[0]] + rows[1..];
    }
  }

  /** COPY writes oldest first: what comes earlier in it comes later in key order. */
  lemma {:induction false} PickedStableOrder(rows: seq<Record>, ctids: set<Ctid>, i: nat, j: nat)
    requires i < j < |Picked(rows, ctids)|
    ensures exists a: nat, b: nat ::
              b < a < |rows| && rows[a] == Picked(rows, ctids)[i] && rows[b] == Picked(rows, ctids)[j]
  {
    var rest := Picked(rows[1..], ctids);
    if j < |rest| {
      PickedStableOrder(rows[1..], ctids, i, j);
      var a: nat, b: nat :| b < a < |rows[1..]| && rows[1..][a] == rest[i] && rows[1..][b] == rest[j];
      assert rows[a + 1] == rest[i] && rows[b + 1] == rest[j];
    } else {
      PickedMember(rows[1..], ctids, rest[i]);
      var k :| 0 <= k < |rows[1..]| && rows[1..][k] == rest[i];
      assert rows[k + 1] == rest[i] && rows[0] == Picked(rows, ctids)[j];
    }
  }

  // ---- writeData ----

  function Block(tables: Tables, eval: Evaluator, cat: Catalog, sets: Sets, key: string): seq<Statement>
    requires key in cat.tables
  {
    if Ctids(sets, key) == {} then []
    else [Copy(key, cat.tables[key].columns, CopyRows(eval, cat.tables[key], Rows(tables, key), Ctids(sets, key)))]
  }

  function Copies(tables: Tables, eval: Evaluator, cat: Catalog, sets: Sets, keys: seq<string>): seq<Statement>
    requires forall k :: k in keys ==> k in cat.tables
  {
    if keys == [] then []
    else Copies(tables, eval, cat, sets, keys[..|keys| - 1]) + Block(tables, eval, cat, sets, keys[|keys| - 1])
  }

  /** usedBy: some column of s is in a table with selected rows. */
  predicate UsedBy(s: Sequence, sets: Sets) {
    exists u :: u in s.uses && Ctids(sets, u.table) != {}
  }

  function SetVals(sets: Sets, sequences: seq<Sequence>): seq<Statement> {
    if sequences == [] then []
    else SetVals(sets, sequences[..|sequences| - 1])
         + if UsedBy(sequences[|sequences| - 1], sets) then [SetVal(sequences[|sequences| - 1])] else []
  }

  function Script(tables: Tables, eval: Evaluator, cat: Catalog, sets: Sets): seq<Statement>
    requires forall k :: k in cat.keys ==> k in cat.tables
  {
    Copies(tables, eval, cat, sets, cat.keys) + SetVals(sets, cat.sequences) + [Commit]
  }

  /** The loop over the tables. */
  method WriteCopies(tables: Tables, eval: Evaluator, cat: Catalog, sets: Sets, keys: seq<string>)
    returns (script: seq<Statement>)
    requires forall k :: k in keys ==> k in cat.tables
    ensures script == Copies(tables, eval, cat, sets, keys)
  {
    script := [];
    for i := 0 to |keys|
      invariant script == Copies(tables, eval, cat, sets, keys[..i])
    {
      var key := keys[i];
      assert keys[..i + 1][..i] == keys[..i];
      if Ctids(sets, key) != {} {
        var t := cat.tables[key];
        script := script + [Copy(key, t.columns, CopyRows(eval, t, Rows(tables, key), Ctids(sets, key)))];
      }
    }
    assert keys[..|keys|] == keys;
  }

  /** The loop over the sequences. */
  method WriteSetVals(sets: Sets, sequences: seq<Sequence>) returns (script: seq<Statement>)
    ensures script == SetVals(sets, sequences)
  {
    script := [];
    for i := 0 to |sequences|
      invariant script == SetVals(sets, sequences[..i])
    {
      assert sequences[..i + 1][..i] == sequences[..i];
      if UsedBy(sequences[i], sets) {
        script := script + [SetVal(sequences[i])];
      }
    }
    assert sequences[..|sequences|] == sequences;
  }

  method WriteData(tables: Tables, eval: Evaluator, cat: Catalog, sets: Sets) returns (script: seq<Statement>)
    requires forall k :: k in cat.keys ==> k in cat.tables
    ensures script == Script(tables, eval, cat, sets)
  {
    var copies := WriteCopies(tables, eval, cat, sets, cat.keys);
    var setvals := WriteSetVals(sets, cat.sequences);
    script := copies + setvals + [Commit];
  }

  lemma {:induction false} CopiesDoNotCommit(tables: Tables, eval: Evaluator, cat: Catalog, sets: Sets,
                                             keys: seq<string>)
    requires forall k :: k in keys ==> k in cat.tables
    ensures Commit !in Copies(tables, eval, cat, sets, keys)
  {
    if keys != [] {
      CopiesDoNotCommit(tables, eval, cat, sets, keys[..|keys| - 1]);
    }
  }

  lemma {:induction false} SetValsDoNotCommit(sets: Sets, sequences: seq<Sequence>)
    ensures Commit !in SetVals(sets, sequences)
  {
    if sequences != [] {
      SetValsDoNotCommit(sets, sequences[..|sequences| - 1]);
    }
  }

  /** A script that was cut short commits nothing: its transaction is committed by the last statement and no other. */
  lemma CutScriptCommitsNothing(tables: Tables, eval: Evaluator, cat: Catalog, sets: Sets, n: nat)
    requires (forall k :: k in cat.keys ==> k in cat.tables) && n <= |Script(tables, eval, cat, sets)|
    ensures Commit in Script(tables, eval, cat, sets)[..n] <==> n == |Script(tables, eval, cat, sets)|
  {
    var body := Copies(tables, eval, cat, sets, cat.keys) + SetVals(sets, cat.sequences);
    CopiesDoNotCommit(tables, eval, cat, sets, cat.keys);
    SetValsDoNotCommit(sets, cat.sequences);
    assert Script(tables, eval, cat, sets) == body + [Commit];
    assert n <= |body| ==> (body + [Commit])[..n] == body[..n];
    assert (body + [Commit])[|body|] == Commit;
  }

  // ---- Loading the script ----

  /** A database: the rows of each table, and the last value of each sequence that was set. */
  datatype Target = Target(tables: map<string, seq<Row>>, last: map<string, int>)

  const EMPTY := Target(map[], map[])

  function LoadedRows(db: Target, key: string): seq<Row> {
    if key in db.tables then db.tables[key] else []
  }

  function LoadRow(columns: seq<string>, values: seq<Value>): Row {
    if columns == [] || values == [] then map[]
    else LoadRow(columns[1..], values[1..])[columns[0] := values[0]]
  }

  function Max(a: int, b: int): int {
    if a < b then b else a
  }

  /** max(column), NULLs ignored, at least low. */
  function ColumnMax(rows: seq<Row>, column: string, low: int): int {
    if rows == [] then low
    else match Column(rows[0], column)
         case Int(n) => Max(n, ColumnMax(rows[1..], column, low))
         case _ => ColumnMax(rows[1..], column, low)
  }

  /** GREATEST(1, max of every column drawing from the sequence). */
  function Greatest(db: Target, uses: seq<SequenceUse>): int {
    if uses == [] then 1
    else ColumnMax(LoadedRows(db, uses[0].table), uses[0].column, Greatest(db, uses[1..]))
  }

  function Exec(db: Target, st: Statement): Target {
    match st
    case Copy(table, columns, rows) =>
      db.(tables := db.tables[table := LoadedRows(db, table) + Map((v: seq<Value>) => LoadRow(columns, v), rows)])
    case SetVal(s) => db.(last := db.last[s.name := Greatest(db, s.uses)])
    case Commit => db
  }

  function Load(db: Target, script: seq<Statement>): Target {
    if script == [] then db
    else Exec(Load(db, script[..|script| - 1]), script[|script| - 1])
  }

  lemma {:induction false} LoadConcat(db: Target, a: seq<Statement>, b: seq<Statement>)
    ensures Load(db, a + b) == Load(Load(db, a), b)
  {
    if b == [] {
      assert a + b == a;
    } else {
      assert (a + b)[..|a + b| - 1] == a + b[..|b| - 1];
      LoadConcat(db, a, b[..|b| - 1]);
    }
  }

  lemma {:induction false} LoadRowAt(columns: seq<string>, values: seq<Value>, i: nat)
    requires Distinct(columns) && |columns| == |values| && i < |columns|
    ensures Column(LoadRow(columns, values), columns[i]) == values[i]
  {
    if i > 0 {
      LoadRowAt(columns[1..], values[1..], i - 1);
    }
  }

  /** The row that loading the copy of a row leaves. */
  function OutRow(eval: Evaluator, t: Table, row: Row): Row {
    LoadRow(t.columns, SelectList(eval, t, row))
  }

  lemma OutRowColumn(eval: Evaluator, t: Table, row: Row, column: string)
    requires Distinct(t.columns) && column in t.columns
    ensures Column(OutRow(eval, t, row), column) ==
            if column in t.transforms then eval(t.transforms[column], row) else Column(row, column)
  {
    var i :| 0 <= i < |t.columns| && t.columns[i] == column;
    LoadRowAt(t.columns, SelectList(eval, t, row), i);
  }

  /** The rows a table must hold after the load. */
  function Expected(tables: Tables, eval: Evaluator, cat: Catalog, sets: Sets, key: string): seq<Row>
    requires key in cat.tables
  {
    Map((rec: Record) => OutRow(eval, cat.tables[key], rec.row), Picked(Rows(tables, key), Ctids(sets, key)))
  }

  lemma {:induction false} PickedNone(rows: seq<Record>)
    ensures Picked(rows, {}) == []
  {
    if rows != [] {
      PickedNone(rows[1..]);
    }
  }

  lemma BlockLoads(db: Target, tables: Tables, eval: Evaluator, cat: Catalog, sets: Sets, key: string)
    requires key in cat.tables && key !in db.tables
    ensures var db' := Load(db, Block(tables, eval, cat, sets, key));
            && LoadedRows(db', key) == Expected(tables, eval, cat, sets, key)
            && db'.last == db.last
            && forall k :: k != key ==> (k in db'.tables <==> k in db.tables) && LoadedRows(db', k) == LoadedRows(db, k)
  {
    if Ctids(sets, key) == {} {
      PickedNone(Rows(tables, key));
    } else {
      var st := Block(tables, eval, cat, sets, key)[0];
      assert Load(db, [st]) == Exec(db, st) by { assert [st][..0] == []; }
      assert Map((v: seq<Value>) => LoadRow(st.columns, v), st.rows) == Expected(tables, eval, cat, sets, key);
    }
  }

  /** The tables of keys hold their expected rows, and no other table exists. */
  ghost predicate HoldsExpected(db: Target, tables: Tables, eval: Evaluator, cat: Catalog, sets: Sets,
                                keys: seq<string>)
    requires forall k :: k in keys ==> k in cat.tables
  {
    && db.last == map[]
    && (forall k :: k !in keys ==> k !in db.tables)
    && forall k :: k in keys ==> LoadedRows(db, k) == Expected(tables, eval, cat, sets, k)
  }

  lemma OneMoreBlock(db: Target, tables: Tables, eval: Evaluator, cat: Catalog, sets: Sets, init: seq<string>,
                     key: string)
    requires (forall k :: k in init ==> k in cat.tables) && key in cat.tables && key !in init
    requires HoldsExpected(db, tables, eval, cat, sets, init)
    ensures HoldsExpected(Load(db, Block(tables, eval, cat, sets, key)), tables, eval, cat, sets, init + [key])
  {
    BlockLoads(db, tables, eval, cat, sets, key);
  }

  lemma {:induction false} CopiesLoad(tables: Tables, eval: Evaluator, cat: Catalog, sets: Sets, keys: seq<string>)
    requires (forall k :: k in keys ==> k in cat.tables) && Distinct(keys)
    ensures HoldsExpected(Load(EMPTY, Copies(tables, eval, cat, sets, keys)), tables, eval, cat, sets, keys)
  {
    if keys != [] {
      var init, key := keys[..|keys| - 1], keys[|keys| - 1];
      CopiesLoad(tables, eval, cat, sets, init);
      LoadConcat(EMPTY, Copies(tables, eval, cat, sets, init), Block(tables, eval, cat, sets, key));
      OneMoreBlock(Load(EMPTY, Copies(tables, eval, cat, sets, init)), tables, eval, cat, sets, init, key);
      assert keys == init + [key];
    }
  }

  lemma {:induction false} GreatestOfTables(a: Target, b: Target, uses: seq<SequenceUse>)
    requires a.tables == b.tables
    ensures Greatest(a, uses) == Greatest(b, uses)
  {
    if uses != [] {
      GreatestOfTables(a, b, uses[1..]);
    }
  }

  lemma {:induction false} SetValsLoad(db: Target, sets: Sets, sequences: seq<Sequence>)
    requires forall i, j :: 0 <= i < j < |sequences| ==> sequences[i].name != sequences[j].name
    ensures var db' := Load(db, SetVals(sets, sequences));
            && db'.tables == db.tables
            && (forall s :: s in sequences && UsedBy(s, sets) ==>
                 s.name in db'.last && db'.last[s.name] == Greatest(db, s.uses))
            && forall n :: n in db'.last ==>
                 n in db.last || exists s :: s in sequences && UsedBy(s, sets) && s.name == n
  {
    if sequences != [] {
      var init, s := sequences[..|sequences| - 1], sequences[|sequences| - 1];
      SetValsLoad(db, sets, init);
      var mid := Load(db, SetVals(sets, init));
      assert sequences == init + [s];
      if UsedBy(s, sets) {
        assert SetVals(sets, sequences) == SetVals(sets, init) + [SetVal(s)];
        LoadConcat(db, SetVals(sets, init), [SetVal(s)]);
        assert Load(mid, [SetVal(s)]) == Exec(mid, SetVal(s)) by { assert [SetVal(s)][..0] == []; }
        GreatestOfTables(mid, db, s.uses);
      } else {
        assert SetVals(sets, sequences) == SetVals(sets, init);
      }
    }
  }

  lemma ScriptPhases(db: Target, copies: seq<Statement>, setvals: seq<Statement>)
    ensures Load(db, copies + setvals + [Commit]) == Load(Load(db, copies), setvals)
  {
    LoadConcat(db, copies, setvals);
    assert (copies + setvals + [Commit])[..|copies + setvals|] == copies + setvals;
  }

  /** Every sequence in use is set to the greatest value of its columns, and no other is set. */
  ghost predicate SequencesSet(db: Target, sets: Sets, sequences: seq<Sequence>) {
    && (forall s :: s in sequences && UsedBy(s, sets) ==> s.name in db.last && db.last[s.name] == Greatest(db, s.uses))
    && forall n :: n in db.last ==> exists s :: s in sequences && UsedBy(s, sets) && s.name == n
  }

  lemma SetValsSet(db: Target, sets: Sets, sequences: seq<Sequence>)
    requires (forall i, j :: 0 <= i < j < |sequences| ==> sequences[i].name != sequences[j].name) && db.last == map[]
    ensures var db' := Load(db, SetVals(sets, sequences)); db'.tables == db.tables && SequencesSet(db', sets, sequences)
  {
    SetValsLoad(db, sets, sequences);
    var db' := Load(db, SetVals(sets, sequences));
    forall s | s in sequences && UsedBy(s, sets)
      ensures s.name in db'.last && db'.last[s.name] == Greatest(db', s.uses)
    {
      GreatestOfTables(db, db', s.uses);
    }
  }

  /** Loading the whole script leaves each table with exactly its expected rows. */
  lemma ScriptLoads(tables: Tables, eval: Evaluator, cat: Catalog, sets: Sets)
    requires C.Valid(cat)
    ensures (forall k :: k in cat.keys ==> k in cat.tables)
    ensures var db := Load(EMPTY, Script(tables, eval, cat, sets));
            && (forall k :: k in cat.tables ==> LoadedRows(db, k) == Expected(tables, eval, cat, sets, k))
            && (forall k :: k !in cat.tables ==> k !in db.tables)
            && SequencesSet(db, sets, cat.sequences)
  {
    assert forall k :: k in cat.keys <==> k in Elems(cat.keys);
    var copies := Copies(tables, eval, cat, sets, cat.keys);
    CopiesLoad(tables, eval, cat, sets, cat.keys);
    SetValsSet(Load(EMPTY, copies), sets, cat.sequences);
    ScriptPhases(EMPTY, copies, SetVals(sets, cat.sequences));
  }

  // ---- Sequences after the load ----

  lemma {:induction false} ColumnMaxBounds(rows: seq<Row>, column: string, low: int)
    ensures ColumnMax(rows, column, low) >= low
    ensures forall r :: r in rows && Column(r, column).Int? ==> Column(r, column).n <= ColumnMax(rows, column, low)
    ensures ColumnMax(rows, column, low) == low
         || exists r :: r in rows && Column(r, column) == Int(ColumnMax(rows, column, low))
  {
    if rows != [] {
      ColumnMaxBounds(rows[1..], column, low);
      assert rows == [rows[0]] + rows[1..];
    }
  }

  /** n is a value that some column drawing from the sequence holds. */
  ghost predicate Holds(db: Target, uses: seq<SequenceUse>, n: int) {
    exists u, r :: u in uses && r in LoadedRows(db, u.table) && Column(r, u.column) == Int(n)
  }

  lemma {:induction false} GreatestBounds(db: Target, uses: seq<SequenceUse>)
    ensures Greatest(db, uses) >= 1
    ensures forall n :: Holds(db, uses, n) ==> n <= Greatest(db, uses)
    ensures Greatest(db, uses) == 1 || Holds(db, uses, Greatest(db, uses))
  {
    if uses != [] {
      var rest := uses[1..];
      GreatestBounds(db, rest);
      var rows := LoadedRows(db, uses[0].table);
      ColumnMaxBounds(rows, uses[0].column, Greatest(db, rest));
      assert uses == [uses[0]] + rest;
      forall n | Holds(db, uses, n)
        ensures n <= Greatest(db, uses)
      {
        var u, r :| u in uses && r in LoadedRows(db, u.table) && Column(r, u.column) == Int(n);
        if u in rest {
          assert Holds(db, rest, n);
        }
      }
      if Holds(db, rest, Greatest(db, rest)) {
        var u, r :| u in rest && r in LoadedRows(db, u.table) && Column(r, u.column) == Int(Greatest(db, rest));
        assert u in uses;
      }
    }
  }

  /** setval marks the value as used, so nextval steps past it. */
  function NextVal(db: Target, name: string, increment: int): int
    requires name in db.last
  {
    db.last[name] + increment
  }

  /** A sequence that some loaded column draws a value from has been set. */
  lemma HeldSequenceIsSet(tables: Tables, eval: Evaluator, cat: Catalog, sets: Sets, s: Sequence, n: int)
    requires C.Valid(cat) && s in cat.sequences
    ensures forall k :: k in cat.keys ==> k in cat.tables
    ensures var db := Load(EMPTY, Script(tables, eval, cat, sets));
            Holds(db, s.uses, n) ==> s.name in db.last && db.last[s.name] == Greatest(db, s.uses)
  {
    ScriptLoads(tables, eval, cat, sets);
    var db := Load(EMPTY, Script(tables, eval, cat, sets));
    if Holds(db, s.uses, n) {
      var u, r :| u in s.uses && r in LoadedRows(db, u.table) && Column(r, u.column) == Int(n);
      assert LoadedRows(db, u.table) == Expected(tables, eval, cat, sets, u.table);
      PickedNone(Rows(tables, u.table));
      assert Ctids(sets, u.table) != {};
    }
  }

  /**
    After the load, the next value of an ascending sequence exceeds every
    value that a column drawing from it holds, however many tables share it.
    A sequence whose columns hold a value of at least 1 meets this only if it
    ascends.
   */
  lemma NextValueIsFree(tables: Tables, eval: Evaluator, cat: Catalog, sets: Sets, s: Sequence, n: int, increment: int)
    requires C.Valid(cat) && s in cat.sequences
    ensures forall k :: k in cat.keys ==> k in cat.tables
    ensures var db := Load(EMPTY, Script(tables, eval, cat, sets));
            Holds(db, s.uses, n) ==>
              && s.name in db.last
              && (increment > 0 ==> NextVal(db, s.name, increment) > n)
              && (n >= 1 && increment <= 0 ==> exists m :: Holds(db, s.uses, m) && NextVal(db, s.name, increment) <= m)
  {
    HeldSequenceIsSet(tables, eval, cat, sets, s, n);
    var db := Load(EMPTY, Script(tables, eval, cat, sets));
    if Holds(db, s.uses, n) {
      GreatestBounds(db, s.uses);
      var top := Greatest(db, s.uses);
      assert n >= 1 ==> Holds(db, s.uses, top);
    }
  }
}
