/**
  The snapshot a dump reads and the meaning of the two queries the walk sends
  (internal/pkg/dump/sql.go). A table is the list of its rows in key order,
  newest first: the order of the ORDER BY that childSQL writes.
 */
module Database {
  import opened Lists

  type Ctid = string

  datatype Value = Null | Int(n: int) | Text(s: string)

  type Row = map<string, Value>

  datatype Record = Record(ctid: Ctid, row: Row)

  type Tables = map<string, seq<Record>>

  datatype RowId = RowId(table: string, ctid: Ctid)

  datatype ForeignKey = ForeignKey(child: string, parent: string, childCols: seq<string>, parentCols: seq<string>)

  function Column(row: Row, col: string): Value {
    if col in row then row[col] else Null
  }

  function Rows(tables: Tables, key: string): seq<Record> {
    if key in tables then tables[key] else []
  }

  /** SQL's (c.cols) = (p.cols): every pair is equal and a NULL equals nothing. */
  predicate Refers(fk: ForeignKey, c: Row, p: Row) {
    && |fk.childCols| == |fk.parentCols|
    && forall i :: 0 <= i < |fk.childCols| ==>
                     && Column(c, fk.childCols[i]) != Null
                     && Column(c, fk.childCols[i]) == Column(p, fk.parentCols[i])
  }

  /** SQL's three truth values. */
  datatype Truth = True | False | Unknown

  function SqlEqual(a: Value, b: Value): Truth {
    if a == Null || b == Null then Unknown else if a == b then True else False
  }

  function SqlAnd(a: Truth, b: Truth): Truth {
    if a == False || b == False then False else if a == Unknown || b == Unknown then Unknown else True
  }

  /** (a1, ..., an) = (b1, ..., bn), column by column. */
  function SqlRowEqual(a: seq<Value>, b: seq<Value>): Truth
    requires |a| == |b|
  {
    if a == [] then True else SqlAnd(SqlEqual(a[0], b[0]), SqlRowEqual(a[1..], b[1..]))
  }

  lemma {:induction false} RowEqualIff(a: seq<Value>, b: seq<Value>)
    requires |a| == |b|
    ensures SqlRowEqual(a, b) == True <==> forall i :: 0 <= i < |a| ==> a[i] != Null && a[i] == b[i]
  {
    if a != [] {
      RowEqualIff(a[1..], b[1..]);
      assert forall i :: 1 <= i < |a| ==> a[i] == a[1..][i - 1] && b[i] == b[1..][i - 1];
    }
  }

  /** A row refers to another iff SQL's row comparison of the key columns is true, not false and not unknown. */
  lemma RefersIsSql(fk: ForeignKey, c: Row, p: Row)
    requires |fk.childCols| == |fk.parentCols|
    ensures Refers(fk, c, p) <==>
            SqlRowEqual(Map(x => Column(c, x), fk.childCols), Map(x => Column(p, x), fk.parentCols)) == True
  {
    RowEqualIff(Map(x => Column(c, x), fk.childCols), Map(x => Column(p, x), fk.parentCols));
  }

  /** The row identities of the whole snapshot. */
  function Universe(tables: Tables): set<RowId> {
    set t, rec | t in tables && rec in tables[t] :: RowId(t, rec.ctid)
  }

  // ---- parentSQL and childSQL ----

  datatype Query = ParentQuery(fk: ForeignKey) | ChildQuery(fk: ForeignKey, perParent: nat)

  /** The rows of a child table that reference p, in key order. */
  function Referencing(fk: ForeignKey, p: Row, rows: seq<Record>): seq<Ctid> {
    if rows == [] then []
    else if Refers(fk, rows[0].row, p) then [rows[0].ctid] + Referencing(fk, p, rows[1..])
    else Referencing(fk, p, rows[1..])
  }

  /** LIMIT perParent, or no LIMIT clause at all when perParent is 0. */
  function Limited(perParent: nat, s: seq<Ctid>): seq<Ctid> {
    if 0 < perParent < |s| then s[..perParent] else s
  }

  /** The ctids a query answers for the ctids passed as $1. */
  function Answer(tables: Tables, q: Query, ctids: set<Ctid>): set<Ctid> {
    match q
    case ParentQuery(fk) =>
      set c, p | c in Rows(tables, fk.child) && c.ctid in ctids && p in Rows(tables, fk.parent)
          && Refers(fk, c.row, p.row)
        :: p.ctid
    case ChildQuery(fk, k) =>
      set p, x | p in Rows(tables, fk.parent) && p.ctid in ctids
          && x in Limited(k, Referencing(fk, p.row, Rows(tables, fk.child)))
        :: x
  }

  /** The table whose ctids a query answers. */
  function Target(q: Query): string {
    match q
    case ParentQuery(fk) => fk.parent
    case ChildQuery(fk, _) => fk.child
  }

  /** A query over many ctids answers what it answers for each of them alone. */
  lemma AnswerPointwise(tables: Tables, q: Query, ctids: set<Ctid>, x: Ctid)
    ensures x in Answer(tables, q, ctids) <==> exists c :: c in ctids && x in Answer(tables, q, {c})
  {
    if x in Answer(tables, q, ctids) {
      match q
      case ParentQuery(fk) =>
        var c, p :| c in Rows(tables, fk.child) && c.ctid in ctids && p in Rows(tables, fk.parent)
                && Refers(fk, c.row, p.row) && x == p.ctid;
        assert x in Answer(tables, q, {c.ctid});
      case ChildQuery(fk, k) =>
        var p :| p in Rows(tables, fk.parent) && p.ctid in ctids
                && x in Limited(k, Referencing(fk, p.row, Rows(tables, fk.child)));
        assert x in Answer(tables, q, {p.ctid});
    }
  }

  lemma AnswerUnion(tables: Tables, q: Query, a: set<Ctid>, b: set<Ctid>)
    ensures Answer(tables, q, a + b) == Answer(tables, q, a) + Answer(tables, q, b)
  {
    forall x
      ensures x in Answer(tables, q, a + b) <==> x in Answer(tables, q, a) + Answer(tables, q, b)
    {
      AnswerPointwise(tables, q, a + b, x);
      AnswerPointwise(tables, q, a, x);
      AnswerPointwise(tables, q, b, x);
    }
  }

  lemma {:induction false} ReferencingMember(fk: ForeignKey, p: Row, rows: seq<Record>, x: Ctid)
    ensures x in Referencing(fk, p, rows) <==> exists c :: c in rows && c.ctid == x && Refers(fk, c.row, p)
  {
    if rows != [] {
      ReferencingMember(fk, p, rows[1..], x);
      assert rows == [rows[0]] + rows[1..];
    }
  }

  /** What a query answers exists in the table it selects from. */
  lemma AnswerExists(tables: Tables, q: Query, ctids: set<Ctid>, x: Ctid)
    requires x in Answer(tables, q, ctids)
    ensures RowId(Target(q), x) in Universe(tables)
    ensures exists rec :: rec in Rows(tables, Target(q)) && rec.ctid == x
  {
    match q
    case ParentQuery(fk) =>
    case ChildQuery(fk, k) =>
      var p :| p in Rows(tables, fk.parent) && p.ctid in ctids
              && x in Limited(k, Referencing(fk, p.row, Rows(tables, fk.child)));
      ReferencingMember(fk, p.row, Rows(tables, fk.child), x);
  }

  // ---- The cap of a child query, stated by rank instead of by list ----

  ghost predicate DistinctCtids(rows: seq<Record>) {
    forall i, j :: 0 <= i < j < |rows| ==> rows[i].ctid != rows[j].ctid
  }

  /** How many rows before position i reference p. */
  ghost function Rank(fk: ForeignKey, p: Row, rows: seq<Record>, i: nat): nat
    requires i <= |rows|
  {
    if i == 0 then 0
    else Rank(fk, p, rows, i - 1) + if Refers(fk, rows[i - 1].row, p) then 1 else 0
  }

  lemma {:induction false} RankTail(fk: ForeignKey, p: Row, rows: seq<Record>, i: nat)
    requires 0 < i <= |rows|
    ensures Rank(fk, p, rows, i) == (if Refers(fk, rows[0].row, p) then 1 else 0) + Rank(fk, p, rows[1..], i - 1)
  {
    if i == 1 {
      assert Rank(fk, p, rows, 0) == 0;
    } else {
      RankTail(fk, p, rows, i - 1);
    }
  }

  /** The row at position i is the Rank-th entry of the list of referencing rows. */
  lemma {:induction false} ReferencingRank(fk: ForeignKey, p: Row, rows: seq<Record>, i: nat)
    requires i < |rows| && Refers(fk, rows[i].row, p)
    ensures Rank(fk, p, rows, i) < |Referencing(fk, p, rows)|
    ensures Referencing(fk, p, rows)[Rank(fk, p, rows, i)] == rows[i].ctid
  {
    if i > 0 {
      RankTail(fk, p, rows, i);
      ReferencingRank(fk, p, rows[1..], i - 1);
    }
  }

  lemma {:induction false} ReferencingDistinct(fk: ForeignKey, p: Row, rows: seq<Record>)
    requires DistinctCtids(rows)
    ensures Distinct(Referencing(fk, p, rows))
  {
    if rows != [] {
      ReferencingDistinct(fk, p, rows[1..]);
      if Refers(fk, rows[0].row, p) {
        ReferencingMember(fk, p, rows[1..], rows[0].ctid);
      }
    }
  }

  /**
    The cap counts per parent row: child row i of a parent is selected exactly
    when fewer than perParent rows before it in key order reference the same
    parent, so the selected ones are the first perParent.
   */
  lemma ChildCap(fk: ForeignKey, perParent: nat, p: Row, rows: seq<Record>, i: nat)
    requires DistinctCtids(rows) && i < |rows|
    ensures rows[i].ctid in Limited(perParent, Referencing(fk, p, rows)) <==>
            Refers(fk, rows[i].row, p) && (perParent == 0 || Rank(fk, p, rows, i) < perParent)
    ensures perParent > 0 ==> |Limited(perParent, Referencing(fk, p, rows))| <= perParent
  {
    var all := Referencing(fk, p, rows);
    ReferencingMember(fk, p, rows, rows[i].ctid);
    ReferencingDistinct(fk, p, rows);
    if Refers(fk, rows[i].row, p) {
      ReferencingRank(fk, p, rows, i);
      var r := Rank(fk, p, rows, i);
      assert rows[i].ctid == all[r];
      if 0 < perParent < |all| && r < perParent {
        assert all[..perParent][r] == rows[i].ctid;
      }
    }
  }
}
