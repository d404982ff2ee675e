/**
  Any number of generated delete commands, other commands and relays on one
  database, as a step system that contains the one of Outbox. DeleteCommand.dfy
  proves that the code of the command takes only these steps.
 */
module Deletion {
  import opened Lists
  import O = Outbox

  type CommandId = nat

  /** EventTypeDeleted. */
  const DELETED := "entity.deleted"

  function Deleted(id: int, name: string, userId: string, now: int): O.DomainEvent {
    O.DomainEvent(DELETED, id, userId, now, name)
  }

  /** Where a command's transaction stands. */
  datatype Phase =
    | Started                              // the transaction is open
    | Loaded(events: seq<O.DomainEvent>)   // the row was found and the aggregate holds its events
    | RowDeleted(events: seq<O.DomainEvent>) // DELETE affected the row and holds its lock
    | Dispatched(rows: map<O.EventId, O.Event>) // the outbox rows are inserted, not committed

  datatype Command = Command(id: int, phase: Phase)

  /** rows is the committed entity table, ever all ids it has held; outbox contains the committed outbox table. */
  datatype System = System(rows: map<int, string>, ever: set<int>, commands: map<CommandId, Command>, outbox: O.State)

  ghost predicate Init(s: System) {
    s.ever == s.rows.Keys && s.commands == map[] && O.Init(s.outbox)
  }

  // ---- Steps ----

  datatype Step =
    | Insert(id: int, name: string)                         // a row is created; the sequence never gives an id twice
    | Other(events: map<O.EventId, O.Event>)                 // another command commits other events
    | Relay(step: O.Step)                                    // a relay acts
    | Begin(c: CommandId, id: int)
    | Find(c: CommandId, userId: string, now: int)           // SELECT finds the row; the aggregate records Deleted
    | DeleteRow(c: CommandId)                                // DELETE affects the row, after waiting for its lock
    | Dispatch(c: CommandId, keys: seq<O.EventId>, models: seq<O.Event>) // INSERT into the outbox
    | Commit(c: CommandId)
    | Rollback(c: CommandId)                                 // any error, or a crash

  /** The DELETE of c has affected its row, and c is still open. */
  predicate HoldsRow(s: System, c: CommandId) {
    c in s.commands && (s.commands[c].phase.RowDeleted? || s.commands[c].phase.Dispatched?)
  }

  predicate RowLocked(s: System, id: int) {
    exists c :: c in s.commands && HoldsRow(s, c) && s.commands[c].id == id
  }

  /** Command c has inserted the outbox row e and not committed it. */
  predicate Pending(s: System, c: CommandId, e: O.EventId) {
    c in s.commands && s.commands[c].phase.Dispatched? && e in s.commands[c].phase.rows
  }

  /** The outbox id e is taken, committed or not. */
  predicate Taken(s: System, e: O.EventId) {
    e in s.outbox.table || exists c :: c in s.commands && Pending(s, c, e)
  }

  /** models holds one unpublished outbox row per event, in order, and keys an id for each. */
  predicate Carries(keys: seq<O.EventId>, models: seq<O.Event>, events: seq<O.DomainEvent>) {
    && |keys| == |models| == |events|
    && (forall i, j :: 0 <= i < j < |keys| ==> keys[i] != keys[j])
    && forall i :: 0 <= i < |models| ==> models[i].payload == events[i] && !models[i].published
  }

  function RowsOf(keys: seq<O.EventId>, models: seq<O.Event>): map<O.EventId, O.Event> {
    if |keys| == |models| && (forall i, j :: 0 <= i < j < |keys| ==> keys[i] != keys[j]) then
      map i | 0 <= i < |keys| :: keys[i] := models[i]
    else map[]
  }

  predicate Enabled(s: System, step: Step) {
    match step
    case Insert(id, _) => id !in s.ever
    case Other(events) =>
      forall e :: e in events ==> !Taken(s, e) && !events[e].published && events[e].payload.eventType != DELETED
    case Relay(st) => !st.Commit? && O.Enabled(s.outbox, st)
    case Begin(c, _) => c !in s.commands
    case Find(c, _, _) => c in s.commands && s.commands[c].phase.Started? && s.commands[c].id in s.rows
    case DeleteRow(c) =>
      && c in s.commands && s.commands[c].phase.Loaded?
      && s.commands[c].id in s.rows && !RowLocked(s, s.commands[c].id)
    case Dispatch(c, keys, models) =>
      && c in s.commands && s.commands[c].phase.RowDeleted?
      && (forall e :: e in keys ==> !Taken(s, e)) && Carries(keys, models, s.commands[c].phase.events)
    case Commit(c) => c in s.commands && s.commands[c].phase.Dispatched?
    case Rollback(c) => c in s.commands
  }

  function SetPhase(s: System, c: CommandId, phase: Phase): System {
    if c in s.commands then s.(commands := s.commands[c := s.commands[c].(phase := phase)]) else s
  }

  function Apply(s: System, step: Step): System {
    match step
    case Insert(id, name) => s.(rows := s.rows[id := name], ever := s.ever + {id})
    case Other(events) => s.(outbox := O.Apply(s.outbox, O.Commit(events)))
    case Relay(st) => s.(outbox := O.Apply(s.outbox, st))
    case Begin(c, id) => s.(commands := s.commands[c := Command(id, Started)])
    case Find(c, userId, now) =>
      if c in s.commands && s.commands[c].id in s.rows then
        SetPhase(s, c, Loaded([Deleted(s.commands[c].id, s.rows[s.commands[c].id], userId, now)]))
      else s
    case DeleteRow(c) =>
      if c in s.commands && s.commands[c].phase.Loaded?
      then SetPhase(s, c, RowDeleted(s.commands[c].phase.events))
      else s
    case Dispatch(c, keys, models) => SetPhase(s, c, Dispatched(RowsOf(keys, models)))
    case Commit(c) =>
      if c in s.commands && s.commands[c].phase.Dispatched? then
        s.(rows := s.rows - {s.commands[c].id}, commands := s.commands - {c},
           outbox := O.Apply(s.outbox, O.Commit(s.commands[c].phase.rows)))
      else s
    case Rollback(c) => s.(commands := s.commands - {c})
  }

  ghost predicate Run(s: System, steps: seq<Step>)
    decreases |steps|
  {
    steps == [] || (Enabled(s, steps[0]) && Run(Apply(s, steps[0]), steps[1..]))
  }

  function After(s: System, steps: seq<Step>): System
    decreases |steps|
  {
    if steps == [] then s else After(Apply(s, steps[0]), steps[1..])
  }

  lemma OtherIsFresh(s: System, events: map<O.EventId, O.Event>)
    requires Enabled(s, Other(events))
    ensures events.Keys !! s.outbox.table.Keys
    ensures forall e :: e in events ==> !events[e].published && events[e].payload.eventType != DELETED
  {
    forall e | e in events
      ensures e !in s.outbox.table
    {
      assert !Taken(s, e);
    }
  }

  // ---- The invariant ----

  predicate About(e: O.Event, id: int) {
    e.payload.eventType == DELETED && e.payload.aggregateId == id
  }

  /** The Deleted events for id among some outbox rows. */
  function Deletions(table: map<O.EventId, O.Event>, id: int): set<O.EventId> {
    set e | e in table && About(table[e], id)
  }

  /** A row with a deletion in progress is present, and locked by one command. */
  ghost predicate RowLocks(s: System) {
    && s.rows.Keys <= s.ever
    && (forall c :: HoldsRow(s, c) ==> s.commands[c].id in s.rows)
    && (forall c, d :: HoldsRow(s, c) && HoldsRow(s, d) && s.commands[c].id == s.commands[d].id ==> c == d)
  }

  ghost predicate OneDeletion(events: seq<O.DomainEvent>, id: int) {
    |events| == 1 && events[0].eventType == DELETED && events[0].aggregateId == id
  }

  ghost predicate OneDeletionRow(rows: map<O.EventId, O.Event>, id: int) {
    exists e :: e in rows && rows.Keys == {e} && About(rows[e], id) && !rows[e].published
  }

  /** Every command carries exactly the Deleted event of its own row. */
  ghost predicate Carried(s: System) {
    forall c :: c in s.commands ==>
      match s.commands[c].phase
      case Started => true
      case Loaded(events) => OneDeletion(events, s.commands[c].id)
      case RowDeleted(events) => OneDeletion(events, s.commands[c].id)
      case Dispatched(rows) => OneDeletionRow(rows, s.commands[c].id)
  }

  /** Outbox ids are never given out twice. */
  ghost predicate FreshIds(s: System) {
    && (forall c, e :: Pending(s, c, e) ==> e !in s.outbox.table)
    && (forall c, d, e :: Pending(s, c, e) && Pending(s, d, e) ==> c == d)
  }

  predicate Gone(s: System, id: int) {
    id in s.ever && id !in s.rows
  }

  /** A row that is gone has one committed Deleted event; any other id has none. */
  ghost predicate Announced(s: System, id: int) {
    |Deletions(s.outbox.table, id)| == if Gone(s, id) then 1 else 0
  }

  ghost predicate Inv(s: System) {
    RowLocks(s) && Carried(s) && FreshIds(s) && O.Inv(s.outbox) && forall id :: Announced(s, id)
  }

  lemma InitInv(s: System)
    requires Init(s)
    ensures Inv(s)
  {
    O.InitInv(s.outbox);
    forall id
      ensures Announced(s, id)
    {
      assert Deletions(s.outbox.table, id) == {};
    }
  }

  lemma StepKeepsRowLocks(s: System, step: Step)
    requires RowLocks(s) && Enabled(s, step)
    ensures RowLocks(Apply(s, step))
  {
  }

  lemma OneRowCarried(keys: seq<O.EventId>, models: seq<O.Event>, events: seq<O.DomainEvent>, id: int)
    requires Carries(keys, models, events) && OneDeletion(events, id)
    ensures OneDeletionRow(RowsOf(keys, models), id) && RowsOf(keys, models).Keys == Elems(keys)
  {
    var rows, e := RowsOf(keys, models), keys[0];
    assert keys == [e] && Elems([e]) == {e};
    assert rows == map[e := models[0]];
    assert About(rows[e], id);
  }

  lemma StepKeepsCarried(s: System, step: Step)
    requires Carried(s) && Enabled(s, step)
    ensures Carried(Apply(s, step))
  {
    if step.Dispatch? {
      OneRowCarried(step.keys, step.models, s.commands[step.c].phase.events, s.commands[step.c].id);
    }
  }

  lemma DispatchKeepsFreshIds(s: System, c: CommandId, keys: seq<O.EventId>, models: seq<O.Event>)
    requires Carried(s) && FreshIds(s) && Enabled(s, Dispatch(c, keys, models))
    ensures FreshIds(Apply(s, Dispatch(c, keys, models)))
  {
    var s' := Apply(s, Dispatch(c, keys, models));
    assert forall d, e :: Pending(s, d, e) ==> Taken(s, e);
    OneRowCarried(keys, models, s.commands[c].phase.events, s.commands[c].id);
    assert forall e :: e in RowsOf(keys, models) ==> e in Elems(keys);
    assert forall d, e :: Pending(s', d, e) ==> Pending(s, d, e) || (d == c && e in keys);
  }

  lemma StepKeepsFreshIds(s: System, step: Step)
    requires Carried(s) && FreshIds(s) && Enabled(s, step)
    ensures FreshIds(Apply(s, step))
  {
    var s' := Apply(s, step);
    assert forall c, e :: Pending(s, c, e) ==> Taken(s, e);
    match step
    case Dispatch(c, keys, models) => DispatchKeepsFreshIds(s, c, keys, models);
    case Other(events) =>
      assert forall d, e :: Pending(s', d, e) ==> Pending(s, d, e);
      assert forall e :: e in s'.outbox.table ==> e in s.outbox.table || (e in events && !Taken(s, e));
    case Commit(c) =>
      assert forall d, e :: Pending(s', d, e) ==> Pending(s, d, e) && d != c;
      assert forall e :: e in s'.outbox.table ==> e in s.outbox.table || Pending(s, c, e);
    case _ =>
      assert forall d, e :: Pending(s', d, e) ==> Pending(s, d, e);
      assert s'.outbox.table.Keys == s.outbox.table.Keys;
  }

  /** The outbox step that a step contains is enabled, so Outbox's invariant lasts. */
  lemma StepKeepsOutbox(s: System, step: Step)
    requires Carried(s) && FreshIds(s) && O.Inv(s.outbox) && Enabled(s, step)
    ensures O.Inv(Apply(s, step).outbox)
  {
    match step
    case Relay(st) => O.StepKeeps(s.outbox, st);
    case Other(events) =>
      OtherIsFresh(s, events);
      O.StepKeeps(s.outbox, O.Commit(events));
    case Commit(c) =>
      assert OneDeletionRow(s.commands[c].phase.rows, s.commands[c].id);
      assert forall e :: e in s.commands[c].phase.rows ==> Pending(s, c, e);
      O.StepKeeps(s.outbox, O.Commit(s.commands[c].phase.rows));
    case _ =>
  }

  /** Committing outbox rows under fresh ids adds their deletions. */
  lemma CommitAddsDeletions(table: map<O.EventId, O.Event>, rows: map<O.EventId, O.Event>, id: int)
    requires table.Keys !! rows.Keys
    ensures Deletions(table + rows, id) == Deletions(table, id) + Deletions(rows, id)
    ensures |Deletions(table + rows, id)| == |Deletions(table, id)| + |Deletions(rows, id)|
  {
    assert Deletions(table + rows, id) == Deletions(table, id) + Deletions(rows, id);
    assert Deletions(table, id) !! Deletions(rows, id);
  }

  /** A relay changes no payload. */
  lemma RelayKeepsDeletions(o: O.State, st: O.Step, id: int)
    requires !st.Commit?
    ensures Deletions(O.Apply(o, st).table, id) == Deletions(o.table, id)
  {
    var table := O.Apply(o, st).table;
    assert table.Keys == o.table.Keys && forall e :: e in table ==> table[e].payload == o.table[e].payload;
    assert forall e :: e in table ==> (About(table[e], id) <==> About(o.table[e], id));
  }

  /** The deletion a step commits: that of a committing command, and no other. */
  lemma DeletionsAfter(s: System, step: Step, id: int)
    requires Carried(s) && FreshIds(s) && Enabled(s, step)
    ensures |Deletions(Apply(s, step).outbox.table, id)|
         == |Deletions(s.outbox.table, id)| + if step.Commit? && s.commands[step.c].id == id then 1 else 0
  {
    match step
    case Relay(st) => RelayKeepsDeletions(s.outbox, st, id);
    case Other(events) =>
      OtherIsFresh(s, events);
      CommitAddsDeletions(s.outbox.table, events, id);
      assert forall e :: e in events ==> !About(events[e], id);
      assert Deletions(events, id) == {};
    case Commit(c) =>
      var rows := s.commands[c].phase.rows;
      assert forall e :: e in rows ==> Pending(s, c, e);
      CommitAddsDeletions(s.outbox.table, rows, id);
      assert OneDeletionRow(rows, s.commands[c].id);
      assert Deletions(rows, id) == if s.commands[c].id == id then rows.Keys else {};
    case _ =>
  }

  lemma StepKeepsAnnounced(s: System, step: Step, id: int)
    requires Inv(s) && Enabled(s, step)
    ensures Announced(Apply(s, step), id)
  {
    DeletionsAfter(s, step, id);
    assert Announced(s, id);
    if step.Commit? {
      assert HoldsRow(s, step.c);
    }
  }

  lemma StepKeeps(s: System, step: Step)
    requires Inv(s) && Enabled(s, step)
    ensures Inv(Apply(s, step))
  {
    StepKeepsRowLocks(s, step);
    StepKeepsCarried(s, step);
    StepKeepsFreshIds(s, step);
    StepKeepsOutbox(s, step);
    forall id
      ensures Announced(Apply(s, step), id)
    {
      StepKeepsAnnounced(s, step, id);
    }
  }

  lemma {:induction false} RunKeeps(s: System, steps: seq<Step>)
    requires Inv(s) && Run(s, steps)
    ensures Inv(After(s, steps))
    decreases |steps|
  {
    if steps != [] {
      StepKeeps(s, steps[0]);
      RunKeeps(Apply(s, steps[0]), steps[1..]);
    }
  }

  // ---- Safety over every run ----

  /**
    In every interleaving, a row is gone exactly when the outbox holds one Deleted
    event for it, and otherwise it holds none.
   */
  lemma GoneIffOneEvent(s0: System, steps: seq<Step>, id: int)
    requires Init(s0) && Run(s0, steps)
    ensures var s := After(s0, steps);
            && (id in s.ever ==> (id !in s.rows <==> |Deletions(s.outbox.table, id)| == 1))
            && (Deletions(s.outbox.table, id) == {} <==> id in s.rows || id !in s.ever)
  {
    InitInv(s0);
    RunKeeps(s0, steps);
    assert Announced(After(s0, steps), id);
  }

  lemma SameDeletion(table: map<O.EventId, O.Event>, id: int, e: O.EventId, f: O.EventId)
    requires |Deletions(table, id)| <= 1 && e in Deletions(table, id) && f in Deletions(table, id)
    ensures e == f
  {
    var others := Deletions(table, id) - {e};
    assert |others| == |Deletions(table, id)| - 1;
    assert others == {};
  }

  /**
    What reaches the bus is true: a Deleted message is about a row whose
    deletion has committed, and one outbox row is behind all the messages
    about it, of which a retried batch sends several.
   */
  lemma BusTellsTheTruth(s0: System, steps: seq<Step>, id: int, e: O.EventId)
    requires Init(s0) && Run(s0, steps)
    requires var s := After(s0, steps); e in s.outbox.bus && e in s.outbox.table && About(s.outbox.table[e], id)
    ensures var s := After(s0, steps);
            && Gone(s, id)
            && forall f :: f in s.outbox.bus && f in s.outbox.table && About(s.outbox.table[f], id) ==> f == e
  {
    InitInv(s0);
    RunKeeps(s0, steps);
    var s := After(s0, steps);
    assert Announced(s, id);
    assert e in Deletions(s.outbox.table, id);
    assert |Deletions(s.outbox.table, id)| == 1;
    forall f | f in s.outbox.bus && f in s.outbox.table && About(s.outbox.table[f], id)
      ensures f == e
    {
      SameDeletion(s.outbox.table, id, e, f);
    }
  }

  /** The outbox row e is about id; it has been delivered, or a relay holds it, or one may fetch it. */
  ghost predicate Remembered(o: O.State, e: O.EventId, id: int) {
    && e in o.table && About(o.table[e], id)
    && (O.Marked(o, e) ==> e in o.bus)
    && (!O.Marked(o, e) ==> O.Locked(o, e) || O.Eligible(o, e))
  }

  /** A row that is gone has an outbox row that a relay can still deliver, is delivering, or has delivered. */
  lemma GoneIsNeverForgotten(s0: System, steps: seq<Step>, id: int)
    requires Init(s0) && Run(s0, steps) && Gone(After(s0, steps), id)
    ensures exists e :: Remembered(After(s0, steps).outbox, e, id)
  {
    InitInv(s0);
    RunKeeps(s0, steps);
    var s := After(s0, steps);
    assert Announced(s, id);
    var e := Member(Deletions(s.outbox.table, id));
    assert O.Balanced(s.outbox, e);
    assert O.Marked(s.outbox, e) ==> O.Count(s.outbox.bus, e) >= 1;
    assert Remembered(s.outbox, e, id);
  }

  /** How many commands on id commit in a run. */
  function Wins(s: System, steps: seq<Step>, id: int): nat
    decreases |steps|
  {
    if steps == [] then 0
    else (if steps[0].Commit? && steps[0].c in s.commands && s.commands[steps[0].c].id == id then 1 else 0)
         + Wins(Apply(s, steps[0]), steps[1..], id)
  }

  lemma {:induction false} EachWinLeavesOneEvent(s: System, steps: seq<Step>, id: int)
    requires Inv(s) && Run(s, steps)
    ensures |Deletions(After(s, steps).outbox.table, id)| == |Deletions(s.outbox.table, id)| + Wins(s, steps, id)
    decreases |steps|
  {
    if steps != [] {
      DeletionsAfter(s, steps[0], id);
      StepKeeps(s, steps[0]);
      EachWinLeavesOneEvent(Apply(s, steps[0]), steps[1..], id);
    }
  }

  /** Of all the commands that race to delete a row, at most one commits, and one does exactly when the row is gone. */
  lemma AtMostOneWinner(s0: System, steps: seq<Step>, id: int)
    requires Init(s0) && Run(s0, steps)
    ensures Wins(s0, steps, id) == if Gone(After(s0, steps), id) then 1 else 0
  {
    InitInv(s0);
    RunKeeps(s0, steps);
    EachWinLeavesOneEvent(s0, steps, id);
    assert Announced(s0, id) && Announced(After(s0, steps), id);
  }

  /** A row that is gone stays gone. */
  lemma {:induction false} GoneStays(s: System, steps: seq<Step>, id: int)
    requires Run(s, steps) && Gone(s, id)
    ensures Gone(After(s, steps), id)
    decreases |steps|
  {
    if steps != [] {
      GoneStays(Apply(s, steps[0]), steps[1..], id);
    }
  }

  /** No step takes an outbox row away or changes what it says. */
  lemma EventStays(s: System, step: Step, e: O.EventId)
    requires FreshIds(s) && Enabled(s, step) && e in s.outbox.table
    ensures e in Apply(s, step).outbox.table
    ensures Apply(s, step).outbox.table[e].payload == s.outbox.table[e].payload
  {
    if step.Other? {
      OtherIsFresh(s, step.events);
    } else if step.Commit? {
      assert !Pending(s, step.c, e);
    }
  }

  lemma {:induction false} EventsStay(s: System, steps: seq<Step>, e: O.EventId)
    requires Inv(s) && Run(s, steps) && e in s.outbox.table
    ensures e in After(s, steps).outbox.table && After(s, steps).outbox.table[e].payload == s.outbox.table[e].payload
    decreases |steps|
  {
    if steps != [] {
      EventStays(s, steps[0], e);
      StepKeeps(s, steps[0]);
      EventsStay(Apply(s, steps[0]), steps[1..], e);
    }
  }

  /**
    A deletion is final: whatever happens after it, the row stays gone, no
    command on it commits again, and its one Deleted event stays the only one.
   */
  lemma DeletionIsFinal(s0: System, steps: seq<Step>, more: seq<Step>, id: int)
    requires Init(s0) && Run(s0, steps) && Gone(After(s0, steps), id) && Run(After(s0, steps), more)
    ensures var s, t := After(s0, steps), After(After(s0, steps), more);
            && Gone(t, id) && Wins(s, more, id) == 0
            && |Deletions(s.outbox.table, id)| == 1 && Deletions(t.outbox.table, id) == Deletions(s.outbox.table, id)
  {
    var s := After(s0, steps);
    var t := After(s, more);
    InitInv(s0);
    RunKeeps(s0, steps);
    RunKeeps(s, more);
    GoneStays(s, more, id);
    EachWinLeavesOneEvent(s, more, id);
    assert Announced(s, id) && Announced(t, id);
    var e := Member(Deletions(s.outbox.table, id));
    EventsStay(s, more, e);
    assert e in Deletions(t.outbox.table, id);
    OnlyMember(Deletions(s.outbox.table, id), e);
    OnlyMember(Deletions(t.outbox.table, id), e);
  }

  lemma OnlyMember(s: set<O.EventId>, e: O.EventId)
    requires |s| == 1 && e in s
    ensures s == {e}
  {
    assert |s - {e}| == 0;
  }
}
