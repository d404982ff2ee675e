/**
  The unit of work (pkg/platform/pg/uow/uow.go): functions that run statements
  and nested transactions, executed on a stack of savepoints, against what
  they mean. The database is any type D; a statement is any function of it.
 */
module UnitOfWork {
  import opened Lists

  // ---- Programs ----

  /** A statement fails, or it leaves a database and finds or affects some rows (hit) or none. */
  datatype Reply<D> = Failed | Done(db: D, hit: bool)

  /**
    What the deferred rollback to a savepoint does, whose error nobody looks
    at. Refused: the server answers with an error and the transaction is
    aborted. Unsent: it never reaches the server, and nothing changes.
   */
  datatype Undo = Undone | Refused | Unsent

  /** Whether Begin succeeds, and what Commit and a savepoint's rollback do, for one call of WithTransaction. */
  datatype Env = Env(begins: bool, commit: CommitAnswer, undo: Undo)

  /** The database does as asked. */
  const SOUND := Env(true, Committed, Undone)

  /** A function run under a context: it decides after every statement and every block how to go on. */
  datatype Prog<!D> =
    | Return(ok: bool)
    | Exec(stmt: D -> Reply<D>, hit: Prog<D>, miss: Prog<D>, failed: Prog<D>)
    | Block(env: Env, body: Prog<D>, done: Prog<D>, failed: Prog<D>)

  // ---- What a program means ----

  /** poisoned: a statement failed and no rollback has undone it yet, so every further statement fails. */
  datatype Outcome<D> = Outcome(db: D, ok: bool, poisoned: bool)

  /** A program inside a transaction. */
  function Inside<D>(p: Prog<D>, db: D, poisoned: bool): Outcome<D>
    decreases p, 0
  {
    match p
    case Return(ok) => Outcome(db, ok, poisoned)
    case Exec(stmt, hit, miss, failed) =>
      if poisoned then Inside(failed, db, true)
      else (match stmt(db)
            case Failed => Inside(failed, db, true)
            case Done(d, h) => Inside(if h then hit else miss, d, false))
    case Block(env, body, done, failed) =>
      var r := Nested(env, body, db, poisoned);
      Inside(if r.ok then done else failed, r.db, r.poisoned)
  }

  /**
    WithTransaction inside a transaction. Releasing a savepoint fails in a
    poisoned transaction. A block whose body returns an error is as if it had
    not run, provided that the rollback is carried out.
   */
  function Nested<D>(env: Env, fn: Prog<D>, db: D, poisoned: bool): Outcome<D>
    decreases fn, 1
  {
    if poisoned || !env.begins then Outcome(db, false, true)
    else
      var r := Inside(fn, db, false);
      if !r.ok then
        match env.undo
        case Undone => Outcome(db, false, false)
        case Refused => Outcome(db, false, true)
        case Unsent => Outcome(r.db, false, r.poisoned)
      else if r.poisoned || !env.commit.Committed? then Outcome(db, false, true)
      else r
  }

  /** The root transaction takes effect: its body returned no error and is not poisoned, and the commit went through. */
  predicate Commits<D>(env: Env, fn: Prog<D>, db: D) {
    env.begins && Inside(fn, db, false).ok && !Inside(fn, db, false).poisoned && !env.commit.RolledBack?
  }

  /** WithTransaction outside any transaction. */
  function Root<D>(env: Env, fn: Prog<D>, db: D): D {
    if Commits(env, fn, db) then Inside(fn, db, false).db else db
  }

  /** A program outside any transaction: the committed database it leaves. */
  function Top<D>(p: Prog<D>, db: D): (r: (D, bool)) {
    match p
    case Return(ok) => (db, ok)
    case Exec(stmt, hit, miss, failed) =>
      (match stmt(db)
       case Failed => Top(failed, db)
       case Done(d, h) => Top(if h then hit else miss, d))
    case Block(env, body, done, failed) =>
      Top(if Commits(env, body, db) && env.commit.Committed? then done else failed, Root(env, body, db))
  }

  /** The committed databases other sessions can see, in order: one per statement outside and per root commit. */
  function Visible<D>(p: Prog<D>, db: D): seq<D> {
    match p
    case Return(_) => []
    case Exec(stmt, hit, miss, failed) =>
      (match stmt(db)
       case Failed => Visible(failed, db)
       case Done(d, h) => [d] + Visible(if h then hit else miss, d))
    case Block(env, body, done, failed) =>
      var next := if Commits(env, body, db) && env.commit.Committed? then done else failed;
      (if Commits(env, body, db) then [Root(env, body, db)] else []) + Visible(next, Root(env, body, db))
  }

  /** A poisoned program stays poisoned to its end, and how it ends no longer depends on the data. */
  lemma {:induction false} PoisonStays<D>(p: Prog<D>, a: D, b: D)
    ensures Inside(p, a, true).poisoned && Inside(p, b, true).poisoned && Inside(p, a, true).ok == Inside(p, b, true).ok
    decreases p
  {
    match p
    case Return(_) =>
    case Exec(_, _, _, failed) => PoisonStays(failed, a, b);
    case Block(_, _, _, failed) => PoisonStays(failed, a, b);
  }

  // ---- Erasing the blocks that failed ----

  /**
    The statements of a healthy program that take effect: none of a block that
    fails and is rolled back, nor of any block in it.
   */
  function Survivors<D>(p: Prog<D>, db: D): seq<D -> Reply<D>> {
    match p
    case Return(_) => []
    case Exec(stmt, hit, miss, _) =>
      (match stmt(db)
       case Failed => []
       case Done(d, h) => [stmt] + Survivors(if h then hit else miss, d))
    case Block(env, body, done, failed) =>
      var r := Nested(env, body, db, false);
      if r.poisoned then []
      else if r.ok then Survivors(body, db) + Survivors(done, r.db)
      else (if env.undo.Unsent? then Survivors(body, db) else []) + Survivors(failed, r.db)
  }

  function TopSurvivors<D>(p: Prog<D>, db: D): seq<D -> Reply<D>> {
    match p
    case Return(_) => []
    case Exec(stmt, hit, miss, failed) =>
      (match stmt(db)
       case Failed => TopSurvivors(failed, db)
       case Done(d, h) => [stmt] + TopSurvivors(if h then hit else miss, d))
    case Block(env, body, done, failed) =>
      (if Commits(env, body, db) then Survivors(body, db) else [])
      + TopSurvivors(if Commits(env, body, db) && env.commit.Committed? then done else failed, Root(env, body, db))
  }

  /** Statements one after another, without any transaction. */
  function Replay<D>(stmts: seq<D -> Reply<D>>, db: D): D {
    if stmts == [] then db
    else match stmts[0](db)
         case Failed => Replay(stmts[1..], db)
         case Done(d, _) => Replay(stmts[1..], d)
  }

  lemma {:induction false} ReplayConcat<D>(a: seq<D -> Reply<D>>, b: seq<D -> Reply<D>>, db: D)
    ensures Replay(a + b, db) == Replay(b, Replay(a, db))
  {
    if a == [] {
      assert a + b == b;
    } else {
      assert (a + b)[1..] == a[1..] + b;
      match a[0](db)
      case Failed => ReplayConcat(a[1..], b, db);
      case Done(d, _) => ReplayConcat(a[1..], b, d);
    }
  }

  lemma {:induction false} SurvivorsReplay<D>(p: Prog<D>, db: D)
    requires !Inside(p, db, false).poisoned
    ensures Replay(Survivors(p, db), db) == Inside(p, db, false).db
    decreases p
  {
    match p
    case Return(_) =>
    case Exec(stmt, hit, miss, failed) =>
      match stmt(db) {
        case Failed => PoisonStays(failed, db, db);
        case Done(d, h) =>
          SurvivorsReplay(if h then hit else miss, d);
          ReplayConcat([stmt], Survivors(if h then hit else miss, d), db);
      }
    case Block(env, body, done, failed) =>
      var r := Nested(env, body, db, false);
      if r.poisoned {
        PoisonStays(failed, r.db, r.db);
      } else if r.ok {
        SurvivorsReplay(body, db);
        SurvivorsReplay(done, r.db);
        ReplayConcat(Survivors(body, db), Survivors(done, r.db), db);
      } else {
        var kept := if env.undo.Unsent? then Survivors(body, db) else [];
        if env.undo.Unsent? {
          SurvivorsReplay(body, db);
        }
        SurvivorsReplay(failed, r.db);
        ReplayConcat(kept, Survivors(failed, r.db), db);
      }
  }

  /**
    The committed database is what the surviving statements leave when they
    run one after another without any transaction: a block that fails and is
    rolled back is erased with everything in it, and a root that does not
    commit is erased whole.
   */
  lemma {:induction false} FailedBlocksAreErased<D>(p: Prog<D>, db: D)
    ensures Top(p, db).0 == Replay(TopSurvivors(p, db), db)
    decreases p
  {
    match p
    case Return(_) =>
    case Exec(stmt, hit, miss, failed) =>
      match stmt(db) {
        case Failed => FailedBlocksAreErased(failed, db);
        case Done(d, h) =>
          var next := if h then hit else miss;
          FailedBlocksAreErased(next, d);
          ReplayConcat([stmt], TopSurvivors(next, d), db);
      }
    case Block(env, body, done, failed) =>
      var next := if Commits(env, body, db) && env.commit.Committed? then done else failed;
      FailedBlocksAreErased(next, Root(env, body, db));
      var kept := if Commits(env, body, db) then Survivors(body, db) else [];
      if Commits(env, body, db) {
        SurvivorsReplay(body, db);
      }
      ReplayConcat(kept, TopSurvivors(next, Root(env, body, db)), db);
  }

  // ---- Programs that return an error when a statement failed ----

  /** What p returns once every statement fails. */
  predicate EndsNil<D>(p: Prog<D>) {
    match p
    case Return(ok) => ok
    case Exec(_, _, _, failed) => EndsNil(failed)
    case Block(_, _, _, failed) => EndsNil(failed)
  }

  /** How a program ends. Hurt: a statement of it failed, and no rollback has undone that. */
  datatype Ending<D> = Ended(db: D, ok: bool) | Hurt(ok: bool)

  /**
    The simple meaning: a failed statement, SAVEPOINT and RELEASE included,
    decides at once how the body around it ends, and a block whose rollback is
    carried out happens whole or not at all.
   */
  function Plain<D>(p: Prog<D>, db: D): Ending<D> {
    match p
    case Return(ok) => Ended(db, ok)
    case Exec(stmt, hit, miss, failed) =>
      (match stmt(db)
       case Failed => Hurt(EndsNil(failed))
       case Done(d, h) => Plain(if h then hit else miss, d))
    case Block(env, body, done, failed) =>
      var e := Plain(body, db);
      if !Usable(env, e) then Hurt(EndsNil(failed))
      else if e.ok then Plain(done, e.db)
      else Plain(failed, if env.undo.Undone? then db else e.db)
  }

  /** A nested transaction whose body ends as e leaves the outer one usable. */
  predicate Usable<D>(env: Env, e: Ending<D>)
    ensures Usable(env, e) && e.Hurt? ==> !e.ok && env.undo.Undone?
  {
    && env.begins
    && match e
       case Ended(_, true) => env.commit.Committed?
       case Hurt(true) => false
       case Ended(_, false) => !env.undo.Refused?
       case Hurt(false) => env.undo.Undone?
  }

  /** The database that a program which started from db leaves, if nothing is wrong with it. */
  function Left<D>(e: Ending<D>, db: D): D {
    if e.Ended? then e.db else db
  }

  /** A statement fails in p and p returns nil. */
  predicate Swallows<D>(p: Prog<D>, db: D) {
    Plain(p, db) == Hurt(true)
  }

  lemma {:induction false} PoisonEnds<D>(p: Prog<D>, db: D)
    ensures Inside(p, db, true).ok == EndsNil(p) && Inside(p, db, true).poisoned
    decreases p
  {
    match p
    case Return(_) =>
    case Exec(_, _, _, failed) => PoisonEnds(failed, db);
    case Block(_, _, _, failed) => PoisonEnds(failed, db);
  }

  /** Running a body, with its poisoned transaction and all, ends as the body plainly does. */
  lemma {:induction false} InsideIsPlain<D>(p: Prog<D>, db: D)
    ensures var r, e := Inside(p, db, false), Plain(p, db);
            && r.ok == e.ok && r.poisoned == e.Hurt?
            && (e.Ended? ==> r.db == e.db)
    decreases p
  {
    match p
    case Return(_) =>
    case Exec(stmt, hit, miss, failed) =>
      match stmt(db) {
        case Failed => PoisonEnds(failed, db);
        case Done(d, h) => InsideIsPlain(if h then hit else miss, d);
      }
    case Block(env, body, done, failed) =>
      InsideIsPlain(body, db);
      var r := Nested(env, body, db, false);
      PoisonEnds(failed, r.db);
      InsideIsPlain(if r.ok then done else failed, r.db);
  }

  /**
    A root transaction commits the plain meaning of its body exactly when that
    returns nil unhurt and the database does as asked; otherwise it leaves
    nothing.
   */
  lemma RootIsAtomic<D>(env: Env, fn: Prog<D>, db: D)
    ensures Commits(env, fn, db) <==> env.begins && !env.commit.RolledBack? && Plain(fn, db).Ended? && Plain(fn, db).ok
    ensures Root(env, fn, db) == if Commits(env, fn, db) then Left(Plain(fn, db), db) else db
  {
    InsideIsPlain(fn, db);
  }

  /**
    When a nested transaction leaves the outer one usable, and what it leaves
    then: all it did when it succeeded, nothing when it failed and was rolled
    back, and what it had done by then when it failed and the rollback was
    never sent.
   */
  lemma OuterIntactIff<D>(env: Env, fn: Prog<D>, db: D)
    ensures var r, e := Nested(env, fn, db, false), Plain(fn, db);
            && (!r.poisoned <==> Usable(env, e))
            && (r.poisoned ==> !r.ok)
            && (!r.poisoned ==> r == Outcome(if !e.ok && env.undo.Undone? then db else Left(e, db), e.ok, false))
  {
    InsideIsPlain(fn, db);
  }

  /**
    A failed nested transaction that leaves the outer one usable is erased exactly
    when it was rolled back or had changed nothing.
   */
  lemma FailedBlockIsErasedIff<D>(env: Env, fn: Prog<D>, db: D)
    requires Usable(env, Plain(fn, db)) && !Plain(fn, db).ok
    ensures Nested(env, fn, db, false) == Outcome(db, false, false) <==>
            env.undo.Undone? || Left(Plain(fn, db), db) == db
  {
    OuterIntactIff(env, fn, db);
  }

  /**
    A failed nested transaction leaves the outer one intact: when the database
    does as asked, exactly unless the nested body swallows a failure.
   */
  lemma FailedBlockLeavesOuterIntactIff<D>(fn: Prog<D>, db: D)
    ensures Nested(SOUND, fn, db, false).poisoned <==> Swallows(fn, db)
    ensures !Nested(SOUND, fn, db, false).ok ==>
              (Nested(SOUND, fn, db, false) == Outcome(db, false, false) <==> !Swallows(fn, db))
  {
    OuterIntactIff(SOUND, fn, db);
  }

  /** Every way through p returns an error. */
  ghost predicate ErrorOnly<D>(p: Prog<D>) {
    match p
    case Return(ok) => !ok
    case Exec(_, hit, miss, failed) => ErrorOnly(hit) && ErrorOnly(miss) && ErrorOnly(failed)
    case Block(_, _, done, failed) => ErrorOnly(done) && ErrorOnly(failed)
  }

  /** A failed statement, SAVEPOINT, RELEASE and ROLLBACK included, makes the body around it return an error. */
  ghost predicate Disciplined<D>(p: Prog<D>) {
    match p
    case Return(_) => true
    case Exec(_, hit, miss, failed) => Disciplined(hit) && Disciplined(miss) && ErrorOnly(failed)
    case Block(env, body, done, failed) =>
      && Disciplined(body) && Disciplined(done) && Disciplined(failed)
      && (env == SOUND || ErrorOnly(failed))
  }

  lemma {:induction false} ErrorOnlyEnds<D>(p: Prog<D>)
    requires ErrorOnly(p)
    ensures !EndsNil(p)
    decreases p
  {
    match p
    case Return(_) =>
    case Exec(_, _, _, failed) => ErrorOnlyEnds(failed);
    case Block(_, _, _, failed) => ErrorOnlyEnds(failed);
  }

  /** Code that returns an error after every failed statement swallows nothing, whatever the database. */
  lemma {:induction false} DisciplinedSwallowsNothing<D>(p: Prog<D>, db: D)
    requires Disciplined(p)
    ensures !Swallows(p, db)
    decreases p
  {
    match p
    case Return(_) =>
    case Exec(stmt, hit, miss, failed) =>
      ErrorOnlyEnds(failed);
      match stmt(db) {
        case Failed =>
        case Done(d, h) => DisciplinedSwallowsNothing(if h then hit else miss, d);
      }
    case Block(env, body, done, failed) =>
      var e := Plain(body, db);
      DisciplinedSwallowsNothing(body, db);
      if !Usable(env, e) {
        ErrorOnlyEnds(failed);
      } else {
        DisciplinedSwallowsNothing(if e.ok then done else failed, if e.ok || !env.undo.Undone? then e.db else db);
      }
  }

  /**
    Not every nested transaction leaves it usable: a body that swallows the
    error of a statement and returns nil makes the release fail, and the outer
    transaction, which handles the error of the block and returns nil, is
    rolled back.
   */
  lemma SwallowedFailureLosesOuter(db: int)
    ensures var set1 := (_: int) => Done(1, true);
            var bad := (_: int) => Failed;
            var swallow := Exec(bad, Return(true), Return(true), Return(true));
            var outer := Exec(set1, Block(SOUND, swallow, Return(true), Return(true)), Return(true), Return(false));
            Swallows(swallow, 1) && Inside(outer, db, false).ok && !Commits(SOUND, outer, db)
  {
    var set1 := (_: int) => Done(1, true);
    var bad := (_: int) => Failed;
    var swallow := Exec(bad, Return(true), Return(true), Return(true));
    assert Inside(swallow, 1, false) == Outcome(1, true, true);
    assert Nested(SOUND, swallow, 1, false) == Outcome(1, false, true);
    var rest := Block(SOUND, swallow, Return(true), Return(true));
    assert Inside(rest, 1, false) == Outcome(1, true, true);
    assert set1(db) == Done(1, true);
  }

  /** A block that fails and whose rollback is never sent is not erased: the outer transaction commits what it wrote. */
  lemma UnsentRollbackKeepsWrites(db: int)
    requires db != 1
    ensures var set1 := (_: int) => Done(1, true);
            var write := Exec(set1, Return(false), Return(false), Return(false));
            var outer := Block(Env(true, Committed, Unsent), write, Return(false), Return(true));
            !Inside(write, db, false).ok && Commits(SOUND, outer, db) && Root(SOUND, outer, db) == 1
  {
    var set1 := (_: int) => Done(1, true);
    var write := Exec(set1, Return(false), Return(false), Return(false));
    assert set1(db) == Done(1, true);
    assert Inside(write, db, false) == Outcome(1, false, false);
    assert Nested(Env(true, Committed, Unsent), write, db, false) == Outcome(1, false, false);
  }

  // ---- The savepoint stack ----

  /** Every rollback to a savepoint in p is carried out. */
  predicate Tidy<D>(p: Prog<D>) {
    match p
    case Return(_) => true
    case Exec(_, hit, miss, failed) => Tidy(hit) && Tidy(miss) && Tidy(failed)
    case Block(env, body, done, failed) => env.undo.Undone? && Tidy(body) && Tidy(done) && Tidy(failed)
  }

  /** saved[k] is the database at savepoint k + 1. */
  datatype Tx<D> = Tx(saved: seq<D>, current: D, aborted: bool)

  /** The value of the context's transaction key: 0 is the root, n the n-th savepoint. */
  type Handle = nat

  /** What p means from the state of a transaction on. */
  function From<D>(p: Prog<D>, t: Tx<D>): Outcome<D> {
    Inside(p, t.current, t.aborted)
  }

  /** One connection pool and the transaction that this unit of work has open on it. */
  class Session<D(!new)> {
    var committed: D
    var tx: Option<Tx<D>>
    ghost var visible: seq<D>

    constructor (db: D)
      ensures committed == db && tx.None? && visible == []
    {
      committed, tx, visible := db, None, [];
    }

    /**
      ctx carries a transaction that is open; savepoints left behind by rollbacks
      that never happened may lie above it.
     */
    ghost predicate Ready(ctx: Option<Handle>)
      reads this
    {
      match ctx
      case None => tx.None?
      case Some(n) => tx.Some? && n <= |tx.value.saved|
    }

    /**
      What a run inside the transaction leaves: nothing committed, outer
      savepoints untouched, the outcome r. If it is tidy, it leaves no
      savepoint behind in a healthy transaction.
     */
    twostate predicate Ran(ok: bool, r: Outcome<D>, tidy: bool)
      reads this
    {
      && old(tx).Some? && tx.Some?
      && committed == old(committed) && visible == old(visible)
      && old(tx).value.saved <= tx.value.saved
      && ok == r.ok && tx.value.aborted == r.poisoned
      && (!r.poisoned ==> tx.value.current == r.db)
      && (!r.poisoned && tidy ==> tx.value.saved == old(tx).value.saved)
    }

    method Expose(db: D)
      modifies this
      ensures committed == db && visible == old(visible) + [db] && tx == old(tx)
    {
      committed, visible := db, visible + [db];
    }

    /** Executor(ctx).Exec: the transaction of ctx, or the pool, where every statement commits at once. */
    method Execute(ctx: Option<Handle>, stmt: D -> Reply<D>) returns (r: Reply<D>)
      requires Ready(ctx)
      modifies this
      ensures ctx.None? ==> tx == old(tx) && r == stmt(old(committed))
      ensures ctx.None? && r.Failed? ==> committed == old(committed) && visible == old(visible)
      ensures ctx.None? && r.Done? ==> committed == r.db && visible == old(visible) + [r.db]
      ensures ctx.Some? ==>
                && tx.Some? && committed == old(committed) && visible == old(visible)
                && tx.value.saved == old(tx).value.saved
                && r == (if old(tx).value.aborted then Failed else stmt(old(tx).value.current))
                && tx.value.aborted == r.Failed?
                && (r.Done? ==> tx.value.current == r.db)
    {
      if ctx.None? {
        r := stmt(committed);
        if r.Done? {
          Expose(r.db);
        }
      } else {
        var t := tx.value;
        r := if t.aborted then Failed else stmt(t.current);
        tx := Some(if r.Done? then t.(current := r.db) else t.(aborted := true));
      }
    }

    /** existingTx.Begin: SAVEPOINT, a statement like any other. */
    method BeginNested(env: Env) returns (h: Option<Handle>)
      requires tx.Some?
      modifies this`tx
      ensures tx.Some?
      ensures old(tx).value.aborted || !env.begins ==> h.None? && tx == Some(old(tx).value.(aborted := true))
      ensures !old(tx).value.aborted && env.begins ==>
                && h == Some(|old(tx).value.saved| + 1)
                && tx == Some(old(tx).value.(saved := old(tx).value.saved + [old(tx).value.current]))
    {
      var t := tx.value;
      if t.aborted || !env.begins {
        tx := Some(t.(aborted := true));
        return None;
      }
      tx := Some(t.(saved := t.saved + [t.current]));
      h := Some(|t.saved| + 1);
    }

    /** nestedTx.Commit: RELEASE SAVEPOINT, which an aborted transaction refuses. */
    method Release(n: Handle, env: Env) returns (ok: bool)
      requires tx.Some? && 1 <= n <= |tx.value.saved|
      modifies this`tx
      ensures ok == (!old(tx).value.aborted && env.commit.Committed?)
      ensures ok ==> tx == Some(old(tx).value.(saved := old(tx).value.saved[..n - 1]))
      ensures !ok ==> tx == Some(old(tx).value.(aborted := true))
    {
      var t := tx.value;
      ok := !t.aborted && env.commit.Committed?;
      tx := Some(if ok then t.(saved := t.saved[..n - 1]) else t.(aborted := true));
    }

    /** The deferred nestedTx.Rollback: ROLLBACK TO SAVEPOINT, or nothing once Commit has been called. */
    method RollbackNested(n: Handle, closed: bool, env: Env)
      requires tx.Some? && (closed || 1 <= n <= |tx.value.saved|)
      modifies this`tx
      ensures tx.Some?
      ensures closed || env.undo.Unsent? ==> tx == old(tx)
      ensures !closed && env.undo.Undone? ==>
                tx == Some(Tx(old(tx).value.saved[..n - 1], old(tx).value.saved[n - 1], false))
      ensures !closed && env.undo.Refused? ==> tx == Some(old(tx).value.(aborted := true))
    {
      var t := tx.value;
      if !closed {
        match env.undo
        case Undone => tx := Some(Tx(t.saved[..n - 1], t.saved[n - 1], false));
        case Refused => tx := Some(t.(aborted := true));
        case Unsent =>
      }
    }

    /** existingTx.Begin, the function, and nestedTx.Commit or Rollback. */
    method RunNested(ctx: Handle, env: Env, fn: Prog<D>) returns (ok: bool)
      requires Ready(Some(ctx))
      modifies this
      ensures Ready(Some(ctx))
      ensures Ran(ok, Nested(env, fn, old(tx).value.current, old(tx).value.aborted), env.undo.Undone? && Tidy(fn))
      decreases fn, 2
    {
      var h := BeginNested(env);
      if h.None? {
        return false;
      }
      var n := h.value;
      ok := Run(h, fn);
      assert tx.value.saved[..n - 1] == old(tx).value.saved && tx.value.saved[n - 1] == old(tx).value.current;
      var closed := false;
      if ok {
        ok := Release(n, env);
        closed := true;
      }
      RollbackNested(n, closed, env);
    }

    /** tx.Commit of the root: an aborted transaction is rolled back instead, and the call fails. */
    method CommitRoot(env: Env) returns (ok: bool)
      requires tx.Some?
      modifies this
      ensures tx.None? && ok == (!old(tx).value.aborted && env.commit.Committed?)
      ensures !old(tx).value.aborted && !env.commit.RolledBack? ==>
                committed == old(tx).value.current && visible == old(visible) + [committed]
      ensures old(tx).value.aborted || env.commit.RolledBack? ==> committed == old(committed) && visible == old(visible)
    {
      var t := tx.value;
      tx := None;
      if !t.aborted && !env.commit.RolledBack? {
        Expose(t.current);
      }
      ok := !t.aborted && env.commit.Committed?;
    }

    /**
      WithTransaction. Inside a transaction it is a savepoint, outside it is a
      root transaction; either way it means what Nested and Root say, shows
      other sessions nothing but a root commit, and leaves the stack as deep
      as it found it unless it leaves the transaction aborted or some rollback
      to a savepoint was never sent.
     */
    method WithTransaction(ctx: Option<Handle>, env: Env, fn: Prog<D>) returns (ok: bool)
      requires Ready(ctx)
      modifies this
      ensures Ready(ctx)
      ensures ctx.Some? ==>
                Ran(ok, Nested(env, fn, old(tx).value.current, old(tx).value.aborted), env.undo.Undone? && Tidy(fn))
      ensures ctx.None? ==>
                && committed == Root(env, fn, old(committed))
                && ok == (Commits(env, fn, old(committed)) && env.commit.Committed?)
                && visible == old(visible) + if Commits(env, fn, old(committed)) then [committed] else []
      decreases fn, 3
    {
      if ctx.Some? {
        ok := RunNested(ctx.value, env, fn);
      } else {
        if !env.begins {
          return false;
        }
        tx := Some(Tx([], committed, false));
        ok := Run(Some(0), fn);
        if ok {
          ok := CommitRoot(env);
        }
        tx := None;
      }
    }

    /** What running p under ctx must leave. */
    twostate predicate Did(ctx: Option<Handle>, p: Prog<D>, ok: bool)
      requires old(Ready(ctx))
      reads this
    {
      && Ready(ctx)
      && (ctx.Some? ==> Ran(ok, From(p, old(tx).value), Tidy(p)))
      && (ctx.None? ==>
            && (committed, ok) == Top(p, old(committed))
            && visible == old(visible) + Visible(p, old(committed)))
    }

    method RunExec(ctx: Option<Handle>, p: Prog<D>) returns (ok: bool)
      requires Ready(ctx) && p.Exec?
      modifies this
      ensures Did(ctx, p, ok)
      decreases p, 0
    {
      var r := Execute(ctx, p.stmt);
      var next := if r.Failed? then p.failed else if r.hit then p.hit else p.miss;
      if ctx.Some? && r.Failed? {
        PoisonStays(next, old(tx).value.current, tx.value.current);
      }
      ok := Run(ctx, next);
    }

    method RunBlock(ctx: Option<Handle>, p: Prog<D>) returns (ok: bool)
      requires Ready(ctx) && p.Block?
      modifies this
      ensures Did(ctx, p, ok)
      decreases p, 0
    {
      var inner := WithTransaction(ctx, p.env, p.body);
      var next := if inner then p.done else p.failed;
      if ctx.Some? && tx.value.aborted {
        ghost var r := Nested(p.env, p.body, old(tx).value.current, old(tx).value.aborted);
        PoisonStays(next, r.db, tx.value.current);
      }
      ok := Run(ctx, next);
    }

    /** Running a program on the stack does what the program means. */
    method Run(ctx: Option<Handle>, p: Prog<D>) returns (ok: bool)
      requires Ready(ctx)
      modifies this
      ensures Did(ctx, p, ok)
      decreases p, 1
    {
      match p
      case Return(result) => ok := result;
      case Exec(_, _, _, _) => ok := RunExec(ctx, p);
      case Block(_, _, _, _) => ok := RunBlock(ctx, p);
    }
  }
}
