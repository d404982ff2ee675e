/**
  The code of the generated delete command, its aggregate and the outbox
  dispatcher, running among other participants. Every action is a step of
  Deletion, so what Deletion proves of all runs holds of it.
 */
module DeleteCommand {
  import opened Lists
  import O = Outbox
  import opened Deletion

  // ---- The aggregate ----

  class Aggregate {
    const id: int
    const name: string
    var events: seq<O.DomainEvent>

    /** Reconstitute: a loaded aggregate has no pending events. */
    constructor (id: int, name: string)
      ensures this.id == id && this.name == name && events == []
    {
      this.id, this.name, events := id, name, [];
    }

    method AddEvent(event: O.DomainEvent)
      modifies this`events
      ensures events == old(events) + [event]
    {
      events := events + [event];
    }

    method Delete(userId: string, now: int)
      modifies this`events
      ensures |events| == |old(events)| + 1 && events[..|old(events)|] == old(events)
      ensures var e := events[|old(events)|];
              && e.eventType == "entity.deleted" && e.aggregateId == id && e.name == name
              && e.userId == userId && e.occurredAt == now
      ensures events == old(events) + [Deleted(id, name, userId, now)]
    {
      AddEvent(Deleted(id, name, userId, now));
    }

    method ClearEvents()
      modifies this`events
      ensures events == []
    {
      events := [];
    }
  }

  /** ParseID. */
  predicate ValidId(id: int) {
    id > 0
  }

  // ---- The dispatcher ----

  /**
    The rows that Dispatch inserts: one unpublished row per event, in order,
    under the routing key of its type; an error exactly when a type has no
    key or an event cannot be marshalled.
   */
  method BuildModels(topics: map<string, string>, events: seq<O.DomainEvent>, marshals: O.DomainEvent -> bool)
    returns (r: Result<seq<O.Event>>)
    ensures r.Ok? <==> forall e :: e in events ==> e.eventType in topics && marshals(e)
    ensures r.Ok? ==>
              && |r.value| == |events|
              && forall i :: 0 <= i < |events| ==>
                   && events[i].eventType in topics
                   && r.value[i] == O.Event(topics[events[i].eventType], events[i], events[i].occurredAt, false)
  {
    var models := new O.Event[|events|];
    for i := 0 to |events|
      invariant forall e :: e in events[..i] ==> e.eventType in topics && marshals(e)
      invariant forall k :: 0 <= k < i ==>
                  models[k] == O.Event(topics[events[..i][k].eventType], events[k], events[k].occurredAt, false)
    {
      var event := events[i];
      if event.eventType !in topics {
        return Err("no routing key for domain event type");
      }
      if !marshals(event) {
        return Err("failed to marshal event");
      }
      assert events[..i + 1] == events[..i] + [event];
      models[i] := O.Event(topics[event.eventType], event, event.occurredAt, false);
    }
    assert events[..|events|] == events;
    r := Ok(models[..]);
  }

  // ---- The world a command runs in ----

  ghost predicate RunsTo(s: System, steps: seq<Step>, t: System) {
    Run(s, steps) && After(s, steps) == t
  }

  lemma {:induction false} RunAppend(s: System, steps: seq<Step>, step: Step)
    requires Run(s, steps) && Enabled(After(s, steps), step)
    ensures Run(s, steps + [step]) && After(s, steps + [step]) == Apply(After(s, steps), step)
    decreases |steps|
  {
    if steps == [] {
      assert (steps + [step])[1..] == [];
    } else {
      RunAppend(Apply(s, steps[0]), steps[1..], step);
      assert (steps + [step])[1..] == steps[1..] + [step];
    }
  }

  predicate Mine(step: Step, c: CommandId) {
    !step.Insert? && !step.Other? && !step.Relay? && step.c == c
  }

  /** The steps of one command in a trace. */
  function Own(steps: seq<Step>, c: CommandId): seq<Step> {
    if steps == [] then []
    else Own(steps[..|steps| - 1], c) + if Mine(steps[|steps| - 1], c) then [steps[|steps| - 1]] else []
  }

  class World {
    var state: System
    ghost const origin: System
    ghost var trace: seq<Step>

    ghost predicate Valid()
      reads this
    {
      Init(origin) && RunsTo(origin, trace, state)
    }

    constructor (rows: map<int, string>)
      ensures Valid() && trace == [] && state.rows == rows
    {
      state := System(rows, rows.Keys, map[], O.State(map[], map[], [], []));
      origin := System(rows, rows.Keys, map[], O.State(map[], map[], [], []));
      trace := [];
    }

    method Act(c: CommandId, step: Step)
      requires Valid() && Enabled(state, step) && Mine(step, c)
      modifies this
      ensures Valid() && old(trace) <= trace && state == Apply(old(state), step)
      ensures Own(trace, c) == Own(old(trace), c) + [step]
    {
      RunAppend(origin, trace, step);
      state := Apply(state, step);
      trace := trace + [step];
      assert trace[..|trace| - 1] == old(trace);
    }

    /** Other participants act: whatever of steps is possible when its turn comes. */
    method Interfere(c: CommandId, steps: seq<Step>)
      requires Valid()
      modifies this
      ensures Valid() && old(trace) <= trace && Own(trace, c) == Own(old(trace), c)
      ensures c in state.commands <==> c in old(state).commands
      ensures c in state.commands ==> state.commands[c] == old(state).commands[c]
      ensures steps == [] ==> state == old(state)
    {
      for i := 0 to |steps|
        invariant Valid() && old(trace) <= trace && Own(trace, c) == Own(old(trace), c)
        invariant c in state.commands <==> c in old(state).commands
        invariant c in state.commands ==> state.commands[c] == old(state).commands[c]
        invariant i == 0 ==> state == old(state)
      {
        if !Mine(steps[i], c) && Enabled(state, steps[i]) {
          ghost var before := trace;
          RunAppend(origin, trace, steps[i]);
          state := Apply(state, steps[i]);
          trace := trace + [steps[i]];
          assert trace[..|trace| - 1] == before;
        }
      }
    }
  }

  // ---- Execute ----

  /** What the world answers during one command, and what the others do at each point of it. */
  datatype Environment = Environment(
    begins: bool, selects: bool, deletes: bool, inserts: bool,
    commit: CommitAnswer,
    topics: map<string, string>,
    marshals: O.DomainEvent -> bool,
    now: int,
    others: nat -> seq<Step>)

  /** Nobody else acts while the command runs. */
  ghost predicate Quiet(env: Environment) {
    forall k: nat :: env.others(k) == []
  }

  /** A command other than c holds the lock of the row. */
  ghost predicate HeldByOther(s: System, c: CommandId, id: int) {
    exists d :: d != c && HoldsRow(s, d) && s.commands[d].id == id
  }

  /** Every event has a routing key and can be marshalled. */
  ghost predicate Sendable(env: Environment, events: seq<O.DomainEvent>) {
    forall e :: e in events ==> e.eventType in env.topics && env.marshals(e)
  }

  /** A successful command, step by step. */
  function Script(c: CommandId, id: int, userId: string, now: int, keys: seq<O.EventId>,
                  models: seq<O.Event>): seq<Step> {
    [Begin(c, id), Find(c, userId, now), DeleteRow(c), Dispatch(c, keys, models), Commit(c)]
  }

  /** Outbox ids from a sequence that has passed every id taken. */
  method NextIds(s: System, n: nat) returns (keys: seq<O.EventId>)
    ensures |keys| == n && forall i, j :: 0 <= i < j < n ==> keys[i] != keys[j]
    ensures forall e :: e in keys ==> !Taken(s, e)
  {
    var pending := set c, e | c in s.commands && s.commands[c].phase.Dispatched? && e in s.commands[c].phase.rows :: e;
    var taken := s.outbox.table.Keys + pending;
    assert forall e :: Taken(s, e) ==> e in taken;
    var sorted := Sort((a: int, b: int) => a <= b, taken);
    var last := if sorted == [] then 0 else sorted[|sorted| - 1];
    forall e | e in taken
      ensures e <= last
    {
      assert e in Elems(sorted);
    }
    keys := seq(n, i requires 0 <= i < n => last + 1 + i);
  }

  /** s and t are alike but for command c. */
  ghost predicate Untouched(s: System, t: System, c: CommandId) {
    t.rows == s.rows && t.ever == s.ever && t.outbox == s.outbox && t.commands - {c} == s.commands - {c}
  }

  /** FindByID and the aggregate's Delete. */
  method FindRow(w: World, c: CommandId, userId: string, id: int, env: Environment) returns (a: Option<Aggregate>)
    requires w.Valid() && c in w.state.commands && w.state.commands[c] == Command(id, Started)
    modifies w
    ensures w.Valid() && old(w.trace) <= w.trace && c in w.state.commands && w.state.commands[c].id == id
    ensures Own(w.trace, c) == Own(old(w.trace), c) + if a.Some? then [Find(c, userId, env.now)] else []
    ensures a.Some? ==> fresh(a.value) && w.state.commands[c].phase == Loaded(a.value.events)
    ensures a.Some? ==> id in w.state.rows && a.value.events == [Deleted(id, w.state.rows[id], userId, env.now)]
    ensures a.Some? <==> env.selects && id in w.state.rows
    ensures Quiet(env) ==> Untouched(old(w.state), w.state, c)
  {
    w.Interfere(c, env.others(1));
    if !env.selects || id !in w.state.rows {
      return None;
    }
    var found := new Aggregate(id, w.state.rows[id]);
    w.Act(c, Find(c, userId, env.now));
    found.Delete(userId, env.now);
    a := Some(found);
  }

  /** The repository's Delete: DELETE waits for the row's lock, and affecting no row is ErrNotFound. */
  method RemoveRow(w: World, c: CommandId, id: int, env: Environment) returns (ok: bool)
    requires w.Valid() && c in w.state.commands && w.state.commands[c].id == id && w.state.commands[c].phase.Loaded?
    modifies w
    ensures w.Valid() && old(w.trace) <= w.trace && c in w.state.commands && w.state.commands[c].id == id
    ensures Own(w.trace, c) == Own(old(w.trace), c) + if ok then [DeleteRow(c)] else []
    ensures ok ==> w.state.commands[c].phase == RowDeleted(old(w.state).commands[c].phase.events)
    ensures ok <==> env.deletes && id in w.state.rows && !HeldByOther(w.state, c, id)
    ensures Quiet(env) ==> Untouched(old(w.state), w.state, c)
  {
    w.Interfere(c, env.others(2));
    ok := env.deletes && !RowLocked(w.state, id) && id in w.state.rows;
    if ok {
      w.Act(c, DeleteRow(c));
    }
  }

  /** Dispatch: one INSERT of all rows, nothing at all for no events. */
  method InsertEvents(w: World, c: CommandId, events: seq<O.DomainEvent>, env: Environment)
    returns (ok: bool, ghost keys: seq<O.EventId>, ghost models: seq<O.Event>)
    requires w.Valid() && c in w.state.commands && w.state.commands[c].phase == RowDeleted(events)
    modifies w
    ensures w.Valid() && old(w.trace) <= w.trace && c in w.state.commands
            && w.state.commands[c].id == old(w.state).commands[c].id
    ensures Own(w.trace, c) == Own(old(w.trace), c) + if ok then [Dispatch(c, keys, models)] else []
    ensures ok <==> env.inserts && Sendable(env, events)
    ensures ok ==> w.state.commands[c].phase == Dispatched(RowsOf(keys, models)) && Carries(keys, models, events)
    ensures Quiet(env) ==> Untouched(old(w.state), w.state, c)
    ensures ok ==> forall i :: 0 <= i < |events| ==>
              && events[i].eventType in env.topics
              && models[i] == O.Event(env.topics[events[i].eventType], events[i], events[i].occurredAt, false)
  {
    keys, models := [], [];
    w.Interfere(c, env.others(3));
    var built := BuildModels(env.topics, events, env.marshals);
    if built.Err? || !env.inserts {
      return false, keys, models;
    }
    var ids := NextIds(w.state, |events|);
    w.Act(c, Dispatch(c, ids, built.value));
    return true, ids, built.value;
  }

  lemma UntouchedHeld(s: System, t: System, c: CommandId, id: int)
    requires Untouched(s, t, c)
    ensures HeldByOther(s, c, id) <==> HeldByOther(t, c, id)
  {
    forall d | d != c
      ensures HoldsRow(s, d) <==> HoldsRow(t, d)
      ensures HoldsRow(s, d) ==> s.commands[d] == t.commands[d]
    {
      assert d in s.commands <==> d in s.commands - {c};
      assert d in t.commands <==> d in t.commands - {c};
    }
  }

  /** The steps after Find, as far as they come. */
  function Rest(c: CommandId, keys: seq<O.EventId>, models: seq<O.Event>): seq<Step> {
    [DeleteRow(c)] + [Dispatch(c, keys, models)]
  }

  /** The rest of the body: the row is deleted, its event dispatched and cleared. */
  method DeleteAndDispatch(w: World, c: CommandId, id: int, env: Environment, a: Aggregate)
    returns (ok: bool, ghost n: nat, ghost keys: seq<O.EventId>, ghost models: seq<O.Event>)
    requires w.Valid() && c in w.state.commands && w.state.commands[c].id == id
    requires w.state.commands[c].phase == Loaded(a.events)
    modifies w, a
    ensures w.Valid() && old(w.trace) <= w.trace && c in w.state.commands && w.state.commands[c].id == id
    ensures n <= 2 && Own(w.trace, c) == Own(old(w.trace), c) + Rest(c, keys, models)[..n]
    ensures (ok <==> n == 2) && a.events == if ok then [] else old(a.events)
    ensures ok ==> w.state.commands[c].phase == Dispatched(RowsOf(keys, models)) && Carries(keys, models, old(a.events))
    ensures Quiet(env) ==>
              && Untouched(old(w.state), w.state, c)
              && (ok <==> env.deletes && env.inserts && id in old(w.state).rows && !HeldByOther(old(w.state), c, id)
                          && Sendable(env, old(a.events)))
  {
    keys, models, n := [], [], 0;
    var removed := RemoveRow(w, c, id, env);
    if Quiet(env) {
      UntouchedHeld(old(w.state), w.state, c, id);
    }
    if !removed {
      return false, n, keys, models;
    }
    ok, keys, models := InsertEvents(w, c, a.events, env);
    n := if ok then 2 else 1;
    if ok {
      a.ClearEvents();
    }
  }

  /** The body of the transaction goes through when nobody else acts. */
  ghost predicate Succeeds(s: System, c: CommandId, userId: string, id: int, env: Environment) {
    && env.selects && env.deletes && env.inserts
    && id in s.rows && !HeldByOther(s, c, id)
    && Sendable(env, [Deleted(id, s.rows[id], userId, env.now)])
  }

  /** The command carries the Deleted event of the row as it was in s. */
  ghost predicate Announces(s: System, keys: seq<O.EventId>, models: seq<O.Event>, userId: string, id: int, now: int) {
    id in s.rows && Carries(keys, models, [Deleted(id, s.rows[id], userId, now)])
  }

  /** The body of the transaction: it follows the script up to its Commit, or stops on the way with an error. */
  method Body(w: World, c: CommandId, userId: string, id: int, env: Environment)
    returns (ok: bool, ghost n: nat, ghost keys: seq<O.EventId>, ghost models: seq<O.Event>)
    requires w.Valid() && c in w.state.commands && w.state.commands[c] == Command(id, Started)
    modifies w
    ensures w.Valid() && old(w.trace) <= w.trace && c in w.state.commands && w.state.commands[c].id == id
    ensures 1 <= n <= 4 && Own(w.trace, c) == Own(old(w.trace), c) + Script(c, id, userId, env.now, keys, models)[1..n]
    ensures ok <==> n == 4
    ensures ok ==> w.state.commands[c].phase == Dispatched(RowsOf(keys, models))
    ensures Quiet(env) ==>
              && Untouched(old(w.state), w.state, c) && (ok <==> Succeeds(old(w.state), c, userId, id, env))
              && (ok ==> Announces(old(w.state), keys, models, userId, id, env.now))
  {
    keys, models, n := [], [], 1;
    ok := false;
    var a := FindRow(w, c, userId, id, env);
    if Quiet(env) {
      UntouchedHeld(old(w.state), w.state, c, id);
    }
    if a.Some? {
      ok, n, keys, models := DeleteAndDispatch(w, c, id, env, a.value);
      n := 2 + n;
    }
    ScriptRest(c, id, userId, env.now, keys, models, n);
  }

  lemma ScriptRest(c: CommandId, id: int, userId: string, now: int, keys: seq<O.EventId>, models: seq<O.Event>, n: nat)
    requires 1 <= n <= 4
    ensures Script(c, id, userId, now, keys, models)[1..n] ==
            if n == 1 then [] else [Find(c, userId, now)] + Rest(c, keys, models)[..n - 2]
  {
  }

  /** The script up to the body, and from the body to its end. */
  lemma ScriptEnds(c: CommandId, id: int, userId: string, now: int, keys: seq<O.EventId>, models: seq<O.Event>, n: nat)
    requires 1 <= n <= 5
    ensures var s := Script(c, id, userId, now, keys, models);
            s[..n] == [Begin(c, id)] + s[1..n] && s[..5] == s[..4] + [Commit(c)]
  {
  }

  lemma SameChances(s: System, begun: System, t: System, c: CommandId, userId: string, id: int, env: Environment,
                    keys: seq<O.EventId>, models: seq<O.Event>)
    requires Untouched(s, begun, c) && Untouched(begun, t, c)
    ensures Untouched(s, t, c)
    ensures Succeeds(s, c, userId, id, env) <==> Succeeds(begun, c, userId, id, env)
    ensures Announces(s, keys, models, userId, id, env.now) <==> Announces(begun, keys, models, userId, id, env.now)
  {
    UntouchedHeld(s, begun, c, id);
  }

  method BeginBody(w: World, c: CommandId, userId: string, id: int, env: Environment)
    returns (ok: bool, ghost n: nat, ghost keys: seq<O.EventId>, ghost models: seq<O.Event>)
    requires w.Valid() && c !in w.state.commands
    modifies w
    ensures w.Valid() && old(w.trace) <= w.trace && c in w.state.commands && w.state.commands[c].id == id
    ensures 1 <= n <= 4 && Own(w.trace, c) == Own(old(w.trace), c) + Script(c, id, userId, env.now, keys, models)[..n]
    ensures ok <==> n == 4
    ensures ok ==> w.state.commands[c].phase == Dispatched(RowsOf(keys, models))
    ensures Quiet(env) ==>
              && Untouched(old(w.state), w.state, c) && (ok <==> Succeeds(old(w.state), c, userId, id, env))
              && (ok ==> Announces(old(w.state), keys, models, userId, id, env.now))
  {
    ghost var past := Own(w.trace, c);
    w.Interfere(c, env.others(0));
    w.Act(c, Begin(c, id));
    ghost var begun := w.state;
    assert Own(w.trace, c) == past + [Begin(c, id)];
    ok, n, keys, models := Body(w, c, userId, id, env);
    ScriptEnds(c, id, userId, env.now, keys, models, n);
    assert Own(w.trace, c) == past + Script(c, id, userId, env.now, keys, models)[..n];
    w.Interfere(c, env.others(4));
    if Quiet(env) {
      SameChances(old(w.state), begun, w.state, c, userId, id, env, keys, models);
    }
  }

  /** The row is gone now and in every later state. */
  ghost predicate GoneForGood(s: System, id: int) {
    Gone(s, id) && forall more :: Run(s, more) ==> Gone(After(s, more), id)
  }

  /** The row is deleted and its event is in the outbox, and nothing else has changed. */
  ghost predicate DeletedFrom(s: System, t: System, id: int, keys: seq<O.EventId>, models: seq<O.Event>) {
    && t.rows == s.rows - {id} && t.ever == s.ever && t.commands == s.commands
    && t.outbox == s.outbox.(table := s.outbox.table + RowsOf(keys, models))
  }

  /** What commit and rollback leave when nobody but the command has acted. */
  lemma EndsQuietly(s: System, t: System, c: CommandId, id: int, keys: seq<O.EventId>, models: seq<O.Event>)
    requires Untouched(s, t, c) && c !in s.commands && c in t.commands && t.commands[c].id == id
    ensures Apply(t, Rollback(c)) == s
    ensures t.commands[c].phase == Dispatched(RowsOf(keys, models)) ==>
              DeletedFrom(s, Apply(t, Commit(c)), id, keys, models)
  {
    assert t.commands - {c} == s.commands - {c} == s.commands;
  }

  /**
    Execute. It takes no step at all exactly when there is no user, the id is
    not positive or the transaction cannot begin. Otherwise it follows the
    script to its commit, or some part of it and then rolls back. After its
    own commit the row is gone for good and the outbox holds its one Deleted
    event; it reports success exactly when that commit is confirmed. When
    nobody else acts, the commit happens exactly when the row is there and not
    locked and every answer is good, and otherwise nothing changes.
   */
  method Execute(w: World, c: CommandId, user: Option<string>, id: int, env: Environment)
    returns (ok: bool, ghost n: nat, ghost keys: seq<O.EventId>, ghost models: seq<O.Event>)
    requires w.Valid() && c !in w.state.commands
    modifies w
    ensures w.Valid() && old(w.trace) <= w.trace && c !in w.state.commands
    ensures n <= 5 && (n == 0 <==> user.None? || id <= 0 || !env.begins)
    ensures n == 0 ==> Own(w.trace, c) == Own(old(w.trace), c)
    ensures n > 0 ==>
              Own(w.trace, c) == Own(old(w.trace), c) + Script(c, id, user.value, env.now, keys, models)[..n]
                                 + if n == 5 then [] else [Rollback(c)]
    ensures ok <==> n == 5 && env.commit.Committed?
    ensures n == 5 ==> GoneForGood(w.state, id) && |Deletions(w.state.outbox.table, id)| == 1
    ensures Quiet(env) ==>
              && (n == 5 <==> n > 0 && Succeeds(old(w.state), c, user.value, id, env) && !env.commit.RolledBack?)
              && (n == 5 ==> Announces(old(w.state), keys, models, user.value, id, env.now))
              && if n == 5 then DeletedFrom(old(w.state), w.state, id, keys, models) else w.state == old(w.state)
  {
    n, keys, models := 0, [], [];
    if user.None? || !ValidId(id) || !env.begins {
      return false, n, keys, models;
    }
    ok, n, keys, models := BeginBody(w, c, user.value, id, env);
    if Quiet(env) {
      EndsQuietly(old(w.state), w.state, c, id, keys, models);
    }
    if ok && !env.commit.RolledBack? {
      CommitRow(w, c);
      ScriptEnds(c, id, user.value, env.now, keys, models, 5);
      return env.commit.Committed?, 5, keys, models;
    }
    w.Act(c, Rollback(c));
    ok := false;
  }

  /** The commit of a command that holds its row: the row is gone for good. */
  method CommitRow(w: World, c: CommandId)
    requires w.Valid() && c in w.state.commands && w.state.commands[c].phase.Dispatched?
    modifies w
    ensures w.Valid() && old(w.trace) <= w.trace && c !in w.state.commands
    ensures Own(w.trace, c) == Own(old(w.trace), c) + [Commit(c)] && w.state == Apply(old(w.state), Commit(c))
    ensures var id := old(w.state).commands[c].id;
            GoneForGood(w.state, id) && |Deletions(w.state.outbox.table, id)| == 1
  {
    ghost var id := w.state.commands[c].id;
    InitInv(w.origin);
    RunKeeps(w.origin, w.trace);
    assert HoldsRow(w.state, c);
    w.Act(c, Commit(c));
    forall more | Run(w.state, more)
      ensures Gone(After(w.state, more), id)
    {
      GoneStays(w.state, more, id);
    }
    GoneIffOneEvent(w.origin, w.trace, id);
  }
}
