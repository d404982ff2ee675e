/**
  The transactional outbox as a step system (pkg/platform/db/outbox/relay.go):
  commands commit events, any number of relays lock, publish and mark them,
  and every step of any participant may come next.
 */
module Outbox {
  import opened Lists

  type EventId = int
  type RelayId = nat

  /** LIMIT of the fetch query. */
  const BATCH_LIMIT: nat := 100

  /** A domain event. The payload of an outbox row is one, marshalled; marshalling is taken to lose nothing. */
  datatype DomainEvent = DomainEvent(eventType: string, aggregateId: int, userId: string, occurredAt: int, name: string)

  /** A row of the outbox table; published is published_at IS NOT NULL. */
  datatype Event = Event(topic: string, payload: DomainEvent, occurredAt: int, published: bool)

  /** An open transaction of a relay: the rows it locked, in fetch order, and how many it has published. */
  datatype Batch = Batch(rows: seq<EventId>, done: nat)
  {
    function Published(): seq<EventId>
      requires done <= |rows|
    {
      rows[..done]
    }
  }

  /**
    bus lists the successful publishes in order. aborted lists, for every
    batch that was rolled back, the rows it had published by then.
   */
  datatype State = State(table: map<EventId, Event>, open: map<RelayId, Batch>, bus: seq<EventId>,
                         aborted: seq<seq<EventId>>)

  ghost predicate Init(s: State) {
    s.table == map[] && s.open == map[] && s.bus == [] && s.aborted == []
  }

  // ---- Steps ----

  predicate Locked(s: State, id: EventId) {
    exists r :: r in s.open && id in s.open[r].rows
  }

  /** WHERE published_at IS NULL ... FOR UPDATE SKIP LOCKED */
  predicate Eligible(s: State, id: EventId) {
    id in s.table && !s.table[id].published && !Locked(s, id)
  }

  function Occurred(s: State, id: EventId): int {
    if id in s.table then s.table[id].occurredAt else 0
  }

  /** ORDER BY occurred_at ASC LIMIT 100 over the eligible rows; ties in any order. */
  predicate Fetches(s: State, rows: seq<EventId>) {
    && |rows| <= BATCH_LIMIT
    && (forall i :: 0 <= i < |rows| ==> Eligible(s, rows[i]))
    && (forall i, j :: 0 <= i < j < |rows| ==> rows[i] != rows[j] && Occurred(s, rows[i]) <= Occurred(s, rows[j]))
    && (forall id :: id in s.table ==> Eligible(s, id) && id !in rows ==>
          |rows| == BATCH_LIMIT && forall i :: 0 <= i < |rows| ==> Occurred(s, rows[i]) <= Occurred(s, id))
  }

  datatype Step =
    | Commit(events: map<EventId, Event>)       // a command's transaction commits its outbox rows
    | Fetch(relay: RelayId, rows: seq<EventId>) // a relay begins a transaction and locks a batch
    | Publish(relay: RelayId)                   // the bus accepts the next row of the batch
    | Abort(relay: RelayId)                     // publish error, failed statement, failed commit or crash: rollback
    | Finish(relay: RelayId)                    // the published rows are marked and the transaction commits

  /** Inserting uses fresh identifiers, unpublished. */
  predicate Enabled(s: State, step: Step) {
    match step
    case Commit(events) => events.Keys !! s.table.Keys && forall id :: id in events ==> !events[id].published
    case Fetch(r, rows) => r !in s.open && Fetches(s, rows)
    case Publish(r) => r in s.open && s.open[r].done < |s.open[r].rows|
    case Abort(r) => r in s.open && s.open[r].done <= |s.open[r].rows|
    // The row loop ends at the last row or at a read error, which it does not check.
    case Finish(r) => r in s.open && s.open[r].done <= |s.open[r].rows|
  }

  function Mark(table: map<EventId, Event>, ids: seq<EventId>): map<EventId, Event> {
    map id | id in table :: if id in ids then table[id].(published := true) else table[id]
  }

  function Apply(s: State, step: Step): State {
    match step
    case Commit(events) => s.(table := s.table + events)
    case Fetch(r, rows) => s.(open := s.open[r := Batch(rows, 0)])
    case Publish(r) =>
      if r in s.open && s.open[r].done < |s.open[r].rows| then
        s.(open := s.open[r := s.open[r].(done := s.open[r].done + 1)], bus := s.bus + [s.open[r].rows[s.open[r].done]])
      else s
    case Abort(r) =>
      if r in s.open && s.open[r].done <= |s.open[r].rows| then
        s.(open := s.open - {r}, aborted := s.aborted + [s.open[r].Published()])
      else s
    case Finish(r) =>
      if r in s.open && s.open[r].done <= |s.open[r].rows| then
        s.(open := s.open - {r}, table := Mark(s.table, s.open[r].Published()))
      else s
  }

  // ---- Runs ----

  ghost predicate Run(s: State, steps: seq<Step>)
    decreases |steps|
  {
    steps == [] || (Enabled(s, steps[0]) && Run(Apply(s, steps[0]), steps[1..]))
  }

  function After(s: State, steps: seq<Step>): State
    decreases |steps|
  {
    if steps == [] then s else After(Apply(s, steps[0]), steps[1..])
  }

  ghost predicate RunsTo(s: State, steps: seq<Step>, t: State) {
    Run(s, steps) && After(s, steps) == t
  }

  /** Some steps, all of them allowed, lead from s to t. */
  ghost predicate Reaches(allowed: Step -> bool, s: State, t: State) {
    exists steps: seq<Step> :: RunsTo(s, steps, t) && forall step :: step in steps ==> allowed(step)
  }

  function AnyStep(): Step -> bool {
    (step: Step) => true
  }

  /** No relay but one acts. */
  function OnlyRelay(relay: RelayId): Step -> bool {
    (step: Step) => step.Commit? || step.relay == relay
  }

  /** No command commits. */
  function NoCommit(): Step -> bool {
    (step: Step) => !step.Commit?
  }

  lemma ReachSelf(allowed: Step -> bool, s: State)
    ensures Reaches(allowed, s, s)
  {
    assert RunsTo(s, [], s);
  }

  lemma ReachStep(allowed: Step -> bool, s: State, step: Step, next: State, t: State)
    requires Enabled(s, step) && allowed(step) && Apply(s, step) == next && Reaches(allowed, next, t)
    ensures Reaches(allowed, s, t)
  {
    var steps: seq<Step> :| RunsTo(next, steps, t) && forall step :: step in steps ==> allowed(step);
    assert ([step] + steps)[1..] == steps;
    assert RunsTo(s, [step] + steps, t);
  }

  lemma {:induction false} RunConcat(s: State, a: seq<Step>, b: seq<Step>)
    requires Run(s, a) && Run(After(s, a), b)
    ensures Run(s, a + b) && After(s, a + b) == After(After(s, a), b)
    decreases |a|
  {
    if a == [] {
      assert a + b == b;
    } else {
      RunConcat(Apply(s, a[0]), a[1..], b);
      assert (a + b)[1..] == a[1..] + b;
    }
  }

  lemma ReachOn(allowed: Step -> bool, s: State, mid: State, t: State)
    requires Reaches(allowed, s, mid) && Reaches(allowed, mid, t)
    ensures Reaches(allowed, s, t)
  {
    var a: seq<Step> :| RunsTo(s, a, mid) && forall step :: step in a ==> allowed(step);
    var b: seq<Step> :| RunsTo(mid, b, t) && forall step :: step in b ==> allowed(step);
    RunConcat(s, a, b);
    assert RunsTo(s, a + b, t);
  }

  // ---- The invariant ----

  function Count(bus: seq<EventId>, id: EventId): nat {
    multiset(bus)[id]
  }

  /** The rolled back batches that had published id. */
  function Aborts(aborted: seq<seq<EventId>>, id: EventId): nat {
    if aborted == [] then 0
    else Aborts(aborted[..|aborted| - 1], id) + if id in aborted[|aborted| - 1] then 1 else 0
  }

  /** An open batch has published id. */
  ghost predicate InFlight(s: State, id: EventId) {
    exists r :: r in s.open && s.open[r].done <= |s.open[r].rows| && id in s.open[r].Published()
  }

  ghost predicate Marked(s: State, id: EventId) {
    id in s.table && s.table[id].published
  }

  /** Open batches hold distinct, committed, unmarked rows, and no row is held twice. */
  ghost predicate Locks(s: State) {
    && (forall r :: r in s.open ==> Distinct(s.open[r].rows) && s.open[r].done <= |s.open[r].rows|)
    && (forall r, id :: r in s.open && id in s.open[r].rows ==> id in s.table && !s.table[id].published)
    && (forall r, q, id :: r in s.open && q in s.open && id in s.open[r].rows && id in s.open[q].rows ==> r == q)
  }

  /** Delivery accounting: each successful publish of a row is owed to one batch. */
  ghost predicate Accounted(s: State) {
    forall id :: Balanced(s, id)
  }

  ghost predicate Balanced(s: State, id: EventId) {
    Count(s.bus, id) == Aborts(s.aborted, id) + (if Marked(s, id) then 1 else 0) + (if InFlight(s, id) then 1 else 0)
  }

  /** The bus only carries committed rows. */
  ghost predicate BusCommitted(s: State) {
    forall id :: id in s.bus ==> id in s.table
  }

  ghost predicate Inv(s: State) {
    Locks(s) && Accounted(s) && BusCommitted(s)
  }

  lemma FetchKeepsLocks(s: State, r: RelayId, rows: seq<EventId>)
    requires Locks(s) && Enabled(s, Fetch(r, rows))
    ensures Locks(Apply(s, Fetch(r, rows)))
  {
    var s' := Apply(s, Fetch(r, rows));
    forall id | id in rows
      ensures Eligible(s, id)
    {
    }
    forall p, q, id | p in s'.open && q in s'.open && id in s'.open[p].rows && id in s'.open[q].rows
      ensures p == q
    {
      assert p != r ==> Locked(s, id);
      assert q != r ==> Locked(s, id);
    }
  }

  lemma FinishKeepsLocks(s: State, r: RelayId)
    requires Locks(s) && Enabled(s, Finish(r))
    ensures Locks(Apply(s, Finish(r)))
  {
    var s' := Apply(s, Finish(r));
    forall q, id | q in s'.open && id in s'.open[q].rows
      ensures id in s'.table && !s'.table[id].published
    {
      assert q in s.open && id in s.open[q].rows;
      assert id !in s.open[r].rows;
    }
  }

  lemma StepKeepsLocks(s: State, step: Step)
    requires Locks(s) && Enabled(s, step)
    ensures Locks(Apply(s, step))
  {
    match step
    case Commit(_) =>
    case Fetch(r, rows) => FetchKeepsLocks(s, r, rows);
    case Publish(_) =>
    case Abort(_) =>
    case Finish(r) => FinishKeepsLocks(s, r);
  }

  lemma CommitBalances(s: State, events: map<EventId, Event>, id: EventId)
    requires Enabled(s, Commit(events)) && Balanced(s, id)
    ensures Balanced(Apply(s, Commit(events)), id)
  {
    assert InFlight(Apply(s, Commit(events)), id) <==> InFlight(s, id);
  }

  lemma FetchBalances(s: State, r: RelayId, rows: seq<EventId>, id: EventId)
    requires Enabled(s, Fetch(r, rows)) && Balanced(s, id)
    ensures Balanced(Apply(s, Fetch(r, rows)), id)
  {
    var s' := Apply(s, Fetch(r, rows));
    if InFlight(s, id) {
      var q :| q in s.open && s.open[q].done <= |s.open[q].rows| && id in s.open[q].Published();
      assert s'.open[q] == s.open[q];
    }
  }

  lemma PublishBalances(s: State, r: RelayId, id: EventId)
    requires Locks(s) && Enabled(s, Publish(r)) && Balanced(s, id)
    ensures Balanced(Apply(s, Publish(r)), id)
  {
    var s' := Apply(s, Publish(r));
    var b, x := s.open[r], s.open[r].rows[s.open[r].done];
    assert s'.open[r].Published() == b.Published() + [x];
    assert x in b.rows && x !in b.Published();
    if InFlight(s, id) {
      var q :| q in s.open && s.open[q].done <= |s.open[q].rows| && id in s.open[q].Published();
      assert id in s.open[q].rows && id != x;
      assert q in s'.open && id in s'.open[q].Published();
    }
    if id == x {
      assert id in s'.open[r].Published();
    }
  }

  /** Closing a batch takes exactly its own published rows out of flight. */
  lemma Handover(s: State, s': State, r: RelayId, id: EventId)
    requires Locks(s) && r in s.open && s'.open == s.open - {r}
    ensures InFlight(s, id) <==> InFlight(s', id) || id in s.open[r].Published()
    ensures !(InFlight(s', id) && id in s.open[r].Published())
  {
    assert id in s.open[r].Published() ==> id in s.open[r].rows;
    if InFlight(s, id) {
      var q :| q in s.open && s.open[q].done <= |s.open[q].rows| && id in s.open[q].Published();
      assert q != r ==> q in s'.open && s'.open[q] == s.open[q];
    }
    if InFlight(s', id) {
      var q :| q in s'.open && s'.open[q].done <= |s'.open[q].rows| && id in s'.open[q].Published();
      assert q in s.open && q != r && id in s.open[q].rows;
    }
  }

  lemma AbortBalances(s: State, r: RelayId, id: EventId)
    requires Locks(s) && Enabled(s, Abort(r)) && Balanced(s, id)
    ensures Balanced(Apply(s, Abort(r)), id)
  {
    var s' := Apply(s, Abort(r));
    assert s'.aborted[..|s'.aborted| - 1] == s.aborted;
    Handover(s, s', r, id);
  }

  lemma FinishBalances(s: State, r: RelayId, id: EventId)
    requires Locks(s) && Enabled(s, Finish(r)) && Balanced(s, id)
    ensures Balanced(Apply(s, Finish(r)), id)
  {
    var s' := Apply(s, Finish(r));
    Handover(s, s', r, id);
    assert id in s.open[r].Published() ==> id in s.open[r].rows;
    assert Marked(s', id) <==> Marked(s, id) || id in s.open[r].Published();
  }

  /** Every step of any participant keeps the delivery account of every row. */
  lemma StepBalances(s: State, step: Step)
    requires Locks(s) && Enabled(s, step) && Accounted(s)
    ensures Accounted(Apply(s, step))
  {
    forall id
      ensures Balanced(Apply(s, step), id)
    {
      match step
      case Commit(events) => CommitBalances(s, events, id);
      case Fetch(r, rows) => FetchBalances(s, r, rows, id);
      case Publish(r) => PublishBalances(s, r, id);
      case Abort(r) => AbortBalances(s, r, id);
      case Finish(r) => FinishBalances(s, r, id);
    }
  }

  lemma StepKeeps(s: State, step: Step)
    requires Inv(s) && Enabled(s, step)
    ensures Inv(Apply(s, step))
  {
    StepKeepsLocks(s, step);
    StepBalances(s, step);
    if step.Publish? {
      var b := s.open[step.relay];
      assert b.rows[b.done] in b.rows;
    }
  }

  lemma InitInv(s: State)
    requires Init(s)
    ensures Inv(s)
  {
  }

  lemma {:induction false} RunKeeps(s: State, steps: seq<Step>)
    requires Inv(s) && Run(s, steps)
    ensures Inv(After(s, steps))
    decreases |steps|
  {
    if steps != [] {
      StepKeeps(s, steps[0]);
      RunKeeps(Apply(s, steps[0]), steps[1..]);
    }
  }

  // ---- Safety over every run ----

  /**
    In every run of commands and relays: a marked row was published, the bus
    carries only committed rows, no two open batches hold the same row, and
    every publish is accounted for.
   */
  lemma EveryRunIsSafe(s0: State, steps: seq<Step>)
    requires Init(s0) && Run(s0, steps)
    ensures var s := After(s0, steps);
            && (forall id :: Marked(s, id) ==> id in s.bus)
            && (forall id :: id in s.bus ==> id in s.table)
            && (forall r, q, id :: r in s.open && q in s.open && r != q && id in s.open[r].rows ==>
                 id !in s.open[q].rows)
            && Accounted(s)
  {
    RunKeeps(s0, steps);
    var s := After(s0, steps);
    forall id | Marked(s, id)
      ensures id in s.bus
    {
      assert Balanced(s, id);
      assert Count(s.bus, id) >= 1;
    }
  }

  lemma StepFreezesMarked(s: State, step: Step, id: EventId)
    requires Inv(s) && Enabled(s, step) && Marked(s, id)
    ensures Marked(Apply(s, step), id) && Count(Apply(s, step).bus, id) == Count(s.bus, id)
  {
    if step.Publish? {
      var b := s.open[step.relay];
      assert b.rows[b.done] in b.rows;
    }
  }

  /** Once the mark of a row has committed, no relay publishes it again, and it stays marked. */
  lemma {:induction false} NoPublishAfterMark(s: State, steps: seq<Step>, id: EventId)
    requires Inv(s) && Run(s, steps) && Marked(s, id)
    ensures Marked(After(s, steps), id) && Count(After(s, steps).bus, id) == Count(s.bus, id)
    decreases |steps|
  {
    if steps != [] {
      StepFreezesMarked(s, steps[0], id);
      StepKeeps(s, steps[0]);
      NoPublishAfterMark(Apply(s, steps[0]), steps[1..], id);
    }
  }

  lemma {:induction false} NoAborts(s: State, steps: seq<Step>)
    requires s.aborted == [] && forall i :: 0 <= i < |steps| ==> !steps[i].Abort?
    ensures After(s, steps).aborted == []
    decreases |steps|
  {
    if steps != [] {
      NoAborts(Apply(s, steps[0]), steps[1..]);
    }
  }

  /**
    A run without rollbacks delivers each marked row exactly once, and nothing
    that is neither marked nor in flight.
   */
  lemma ExactlyOnceWithoutAborts(s0: State, steps: seq<Step>, id: EventId)
    requires Init(s0) && Run(s0, steps) && forall i :: 0 <= i < |steps| ==> !steps[i].Abort?
    ensures var s := After(s0, steps);
            && (Marked(s, id) ==> Count(s.bus, id) == 1)
            && (!Marked(s, id) && !InFlight(s, id) ==> Count(s.bus, id) == 0)
  {
    RunKeeps(s0, steps);
    NoAborts(s0, steps);
    var s := After(s0, steps);
    assert forall r :: r in s.open && id in s.open[r].Published() ==> id in s.open[r].rows;
    assert Balanced(s, id) && Aborts(s.aborted, id) == 0;
  }

  // ---- Order of delivery with a single relay ----

  /** Commits never go back in time, and only one relay runs. */
  ghost predicate InOrder(s: State, relay: RelayId, step: Step) {
    match step
    case Commit(events) => forall id, e :: id in s.table && e in events ==> Occurred(s, id) <= events[e].occurredAt
    case Fetch(r, _) => r == relay
    case Publish(r) => r == relay
    case Abort(r) => r == relay
    case Finish(r) => r == relay
  }

  ghost predicate OrderedRun(s: State, relay: RelayId, steps: seq<Step>)
    decreases |steps|
  {
    || steps == []
    || (Enabled(s, steps[0]) && InOrder(s, relay, steps[0]) && OrderedRun(Apply(s, steps[0]), relay, steps[1..]))
  }

  /** Position i of the bus is the first publication of its row. */
  predicate First(bus: seq<EventId>, i: nat)
    requires i < |bus|
  {
    bus[i] !in bus[..i]
  }

  /** No row is first published after a younger one has been published. */
  ghost predicate FirstsOrdered(s: State) {
    forall i, j :: 0 <= i < j < |s.bus| && First(s.bus, j) ==> Occurred(s, s.bus[i]) <= Occurred(s, s.bus[j])
  }

  /** What has been published is no younger than what has not. */
  ghost predicate OldestFirst(s: State) {
    forall p, u :: p in s.bus && u in s.table && u !in s.bus ==> Occurred(s, p) <= Occurred(s, u)
  }

  /** The open batch is sorted and holds the oldest unmarked rows. */
  ghost predicate OldestHeld(s: State, relay: RelayId) {
    && s.open.Keys <= {relay}
    && (relay in s.open ==>
          var rows := s.open[relay].rows;
          && (forall i :: 0 <= i < |rows| ==> rows[i] in s.table)
          && (forall i, j :: 0 <= i < j < |rows| ==> Occurred(s, rows[i]) <= Occurred(s, rows[j]))
          && (forall i, u :: 0 <= i < |rows| && u in s.table && !s.table[u].published && u !in rows ==>
                Occurred(s, rows[i]) <= Occurred(s, u)))
  }

  ghost predicate OrderInv(s: State, relay: RelayId) {
    FirstsOrdered(s) && OldestFirst(s) && OldestHeld(s, relay)
  }

  lemma InFlightOnBus(s: State, relay: RelayId, k: nat)
    requires Inv(s) && relay in s.open && k < s.open[relay].done
    ensures s.open[relay].rows[k] in s.bus
  {
    var id := s.open[relay].rows[k];
    assert s.open[relay].Published()[k] == id;
    assert InFlight(s, id) && Balanced(s, id);
    assert Count(s.bus, id) >= 1;
  }

  /** The next row of the batch is no younger than any row never published. */
  lemma NextIsOldest(s: State, relay: RelayId, u: EventId)
    requires Inv(s) && OrderInv(s, relay) && Enabled(s, Publish(relay)) && u in s.table && u !in s.bus
    ensures var b := s.open[relay]; b.rows[b.done] in s.table && Occurred(s, b.rows[b.done]) <= Occurred(s, u)
  {
    var b := s.open[relay];
    assert b.rows[b.done] in b.rows;
    if u in b.rows {
      forall k: nat | k < b.done
        ensures b.rows[k] in s.bus
      {
        InFlightOnBus(s, relay, k);
      }
    } else {
      assert Balanced(s, u) && Count(s.bus, u) == 0;
      assert !Marked(s, u);
    }
  }

  lemma PublishKeepsFirsts(s: State, relay: RelayId)
    requires Inv(s) && OrderInv(s, relay) && Enabled(s, Publish(relay))
    ensures FirstsOrdered(Apply(s, Publish(relay)))
  {
    var s' := Apply(s, Publish(relay));
    forall i, j | 0 <= i < j < |s'.bus| && First(s'.bus, j)
      ensures Occurred(s', s'.bus[i]) <= Occurred(s', s'.bus[j])
    {
      if j < |s.bus| {
        assert s'.bus[..j] == s.bus[..j];
        assert First(s.bus, j);
      } else {
        assert s'.bus[..j] == s.bus;
        assert s'.bus[i] in s.bus;
        assert s'.bus[j] in s.open[relay].rows;
      }
    }
  }

  lemma PublishKeepsOldest(s: State, relay: RelayId)
    requires Inv(s) && OrderInv(s, relay) && Enabled(s, Publish(relay))
    ensures OldestFirst(Apply(s, Publish(relay)))
  {
    var s' := Apply(s, Publish(relay));
    forall p, u | p in s'.bus && u in s'.table && u !in s'.bus
      ensures Occurred(s', p) <= Occurred(s', u)
    {
      assert u !in s.bus;
      NextIsOldest(s, relay, u);
    }
  }

  lemma CommitKeepsOrder(s: State, relay: RelayId, events: map<EventId, Event>)
    requires Inv(s) && OrderInv(s, relay) && Enabled(s, Commit(events)) && InOrder(s, relay, Commit(events))
    ensures OrderInv(Apply(s, Commit(events)), relay)
  {
    var s' := Apply(s, Commit(events));
    assert forall id :: id in s.table ==> Occurred(s', id) == Occurred(s, id);
    assert forall id, e :: id in s.table && e in events ==> Occurred(s, id) <= Occurred(s', e);
    assert forall i :: 0 <= i < |s.bus| ==> s.bus[i] in s.bus;
    if relay in s.open {
      var rows := s.open[relay].rows;
      assert forall i :: 0 <= i < |rows| ==> rows[i] in s.table;
    }
  }

  lemma FetchKeepsOrder(s: State, relay: RelayId, rows: seq<EventId>)
    requires OrderInv(s, relay) && Enabled(s, Fetch(relay, rows))
    ensures OrderInv(Apply(s, Fetch(relay, rows)), relay)
  {
    assert s.open == map[];
    assert forall id :: !Locked(s, id);
    assert forall id :: Occurred(Apply(s, Fetch(relay, rows)), id) == Occurred(s, id);
    assert forall i :: 0 <= i < |rows| ==> Eligible(s, rows[i]);
  }

  /** Closing the batch changes no timestamp and no publication. */
  lemma CloseKeepsOrder(s: State, s': State, relay: RelayId)
    requires OrderInv(s, relay) && s'.open == s.open - {relay} && s'.bus == s.bus && s'.table.Keys == s.table.Keys
    requires forall id :: Occurred(s', id) == Occurred(s, id)
    ensures OrderInv(s', relay)
  {
  }

  lemma PublishKeepsOrder(s: State, relay: RelayId)
    requires Inv(s) && OrderInv(s, relay) && Enabled(s, Publish(relay))
    ensures OrderInv(Apply(s, Publish(relay)), relay)
  {
    PublishKeepsFirsts(s, relay);
    PublishKeepsOldest(s, relay);
    assert forall id :: Occurred(Apply(s, Publish(relay)), id) == Occurred(s, id);
  }

  lemma StepKeepsOrder(s: State, relay: RelayId, step: Step)
    requires Inv(s) && OrderInv(s, relay) && Enabled(s, step) && InOrder(s, relay, step)
    ensures OrderInv(Apply(s, step), relay)
  {
    match step
    case Commit(events) => CommitKeepsOrder(s, relay, events);
    case Fetch(r, rows) => FetchKeepsOrder(s, relay, rows);
    case Publish(r) => PublishKeepsOrder(s, relay);
    case Abort(r) => CloseKeepsOrder(s, Apply(s, step), relay);
    case Finish(r) => CloseKeepsOrder(s, Apply(s, step), relay);
  }

  lemma {:induction false} RunKeepsOrder(s: State, relay: RelayId, steps: seq<Step>)
    requires Inv(s) && OrderInv(s, relay) && OrderedRun(s, relay, steps)
    ensures BusCommitted(After(s, steps)) && OrderInv(After(s, steps), relay)
    decreases |steps|
  {
    if steps != [] {
      StepKeeps(s, steps[0]);
      StepKeepsOrder(s, relay, steps[0]);
      RunKeepsOrder(Apply(s, steps[0]), relay, steps[1..]);
    }
  }

  /**
    With one relay and commits in time order, first publications are in
    occurred_at order over the whole run, across failed batches and retries.
   */
  lemma SingleRelayDeliversInOrder(s0: State, relay: RelayId, steps: seq<Step>, i: nat, j: nat)
    requires Init(s0) && OrderedRun(s0, relay, steps)
    requires i < j < |After(s0, steps).bus| && First(After(s0, steps).bus, j)
    ensures var s := After(s0, steps);
            && s.bus[i] in s.table && s.bus[j] in s.table
            && Occurred(s, s.bus[i]) <= Occurred(s, s.bus[j])
  {
    RunKeepsOrder(s0, relay, steps);
    var s := After(s0, steps);
    assert s.bus[i] in s.bus && s.bus[j] in s.bus;
  }

  /** Two events, each locked by a relay of its own. */
  function TwoBatches(e1: Event, e2: Event): State {
    State(map[1 := e1, 2 := e2], map[0 := Batch([1], 0), 1 := Batch([2], 0)], [], [])
  }

  /** Both relays have published, the one with the younger row first. */
  function BothPublished(e1: Event, e2: Event): State {
    State(map[1 := e1, 2 := e2], map[0 := Batch([1], 1), 1 := Batch([2], 1)], [2, 1], [])
  }

  lemma YoungerFirst(e1: Event, e2: Event)
    ensures Reaches(AnyStep(), TwoBatches(e1, e2), BothPublished(e1, e2))
  {
    var s4 := TwoBatches(e1, e2);
    var s5 := s4.(open := s4.open[1 := Batch([2], 1)], bus := [] + [2]);
    var s6 := s5.(open := s5.open[0 := Batch([1], 1)], bus := [2] + [1]);
    PublishOne(s4, 1, 2);
    PublishOne(s5, 0, 1);
    assert s6 == BothPublished(e1, e2);
    ReachSelf(AnyStep(), s6);
    ReachStep(AnyStep(), s5, Publish(0), s6, s6);
    ReachStep(AnyStep(), s4, Publish(1), s5, s6);
  }

  lemma SecondRelay(e1: Event, e2: Event)
    requires !e1.published && !e2.published
    ensures Reaches(AnyStep(), State(map[1 := e1], map[0 := Batch([1], 0)], [], []), BothPublished(e1, e2))
  {
    var s2 := State(map[1 := e1], map[0 := Batch([1], 0)], [], []);
    var s3 := s2.(table := map[1 := e1, 2 := e2]);
    YoungerFirst(e1, e2);
    assert s3.open[0].rows == [1];
    LoneFetch(s3, 1, 2);
    ReachStep(AnyStep(), s3, Fetch(1, [2]), TwoBatches(e1, e2), BothPublished(e1, e2));
    ReachStep(AnyStep(), s2, Commit(map[2 := e2]), s3, BothPublished(e1, e2));
  }

  /** With two relays the order can be lost: the younger row may be published first. */
  lemma TwoRelaysCanReorder(e1: Event, e2: Event)
    requires !e1.published && !e2.published && e1.occurredAt < e2.occurredAt
    ensures Reaches(AnyStep(), State(map[], map[], [], []), BothPublished(e1, e2))
  {
    var s0 := State(map[], map[], [], []);
    var s1 := s0.(table := map[1 := e1]);
    var s2 := s1.(open := map[0 := Batch([1], 0)]);
    SecondRelay(e1, e2);
    LoneFetch(s1, 0, 1);
    ReachStep(AnyStep(), s1, Fetch(0, [1]), s2, BothPublished(e1, e2));
    ReachStep(AnyStep(), s0, Commit(map[1 := e1]), s1, BothPublished(e1, e2));
  }

  /** A relay that finds one eligible row locks it. */
  lemma LoneFetch(s: State, r: RelayId, id: EventId)
    requires r !in s.open && id in s.table && !s.table[id].published
    requires forall q :: q in s.open ==> id !in s.open[q].rows
    requires forall other :: other in s.table && other != id ==> s.table[other].published || Locked(s, other)
    ensures Enabled(s, Fetch(r, [id])) && Apply(s, Fetch(r, [id])) == s.(open := s.open[r := Batch([id], 0)])
  {
    assert Eligible(s, id);
  }

  lemma PublishOne(s: State, r: RelayId, id: EventId)
    requires r in s.open && s.open[r] == Batch([id], 0)
    ensures Enabled(s, Publish(r)) && Apply(s, Publish(r)) ==
            s.(open := s.open[r := Batch([id], 1)], bus := s.bus + [id])
  {
  }

  // ---- Progress: complete batches drain the outbox ----

  function Unpublished(s: State): set<EventId> {
    set id | id in s.table && !s.table[id].published
  }

  /** The steps of a batch in which nothing fails and nobody interferes. */
  function CompleteBatch(r: RelayId, rows: seq<EventId>): seq<Step> {
    [Fetch(r, rows)] + PublishesThenFinish(r, |rows|)
  }

  function PublishesThenFinish(r: RelayId, n: nat): seq<Step> {
    if n == 0 then [Finish(r)] else [Publish(r)] + PublishesThenFinish(r, n - 1)
  }

  /** From the middle of a batch to its end: the rest is published in order and the whole batch is marked. */
  lemma {:induction false} RestOfBatch(s: State, r: RelayId, n: nat)
    requires r in s.open && s.open[r].done + n == |s.open[r].rows|
    ensures var steps, rows := PublishesThenFinish(r, n), s.open[r].rows;
            && Run(s, steps)
            && After(s, steps) ==
               s.(table := Mark(s.table, rows), open := s.open - {r}, bus := s.bus + rows[s.open[r].done..])
    decreases n
  {
    var steps, b := PublishesThenFinish(r, n), s.open[r];
    var s' := Apply(s, steps[0]);
    if n == 0 {
      assert steps[1..] == [] && b.rows[..b.done] == b.rows && s.bus + b.rows[b.done..] == s.bus;
    } else {
      assert steps[1..] == PublishesThenFinish(r, n - 1);
      RestOfBatch(s', r, n - 1);
      assert s'.open - {r} == s.open - {r};
      assert s'.bus + b.rows[b.done + 1..] == s.bus + b.rows[b.done..];
    }
  }

  /** A complete batch is always possible; it publishes its rows in order, marks them and leaves nothing open. */
  lemma BatchRuns(s: State, r: RelayId, rows: seq<EventId>)
    requires s.open == map[] && Fetches(s, rows)
    ensures Run(s, CompleteBatch(r, rows))
    ensures After(s, CompleteBatch(r, rows)) == s.(table := Mark(s.table, rows), bus := s.bus + rows)
  {
    var s' := Apply(s, Fetch(r, rows));
    assert CompleteBatch(r, rows)[1..] == PublishesThenFinish(r, |rows|);
    RestOfBatch(s', r, |rows|);
    assert s'.open - {r} == map[] && rows[0..] == rows;
  }

  lemma SubsetSize(a: set<EventId>, b: set<EventId>)
    requires a <= b
    ensures |b - a| == |b| - |a|
  {
    assert b == a + (b - a);
  }

  /** The rows a batch takes when nothing is locked: all of them, or a full batch. */
  lemma BatchSize(s: State, rows: seq<EventId>)
    requires s.open == map[] && Fetches(s, rows)
    ensures Elems(rows) <= Unpublished(s)
    ensures |rows| == if |Unpublished(s)| <= BATCH_LIMIT then |Unpublished(s)| else BATCH_LIMIT
  {
    assert forall id :: id in Unpublished(s) ==> Eligible(s, id);
    assert forall id :: id in rows ==> Eligible(s, id);
    DistinctSize(rows);
    SubsetSize(Elems(rows), Unpublished(s));
    if |rows| < BATCH_LIMIT {
      forall id | id in Unpublished(s)
        ensures id in Elems(rows)
      {
        assert Eligible(s, id);
      }
      assert Elems(rows) == Unpublished(s);
    }
  }

  /** One relay runs a complete batch for each entry of fetched, whichever rows each fetch takes among equals. */
  ghost predicate Batches(s: State, r: RelayId, fetched: seq<seq<EventId>>)
    decreases |fetched|
  {
    fetched == [] || (Fetches(s, fetched[0]) && Batches(After(s, CompleteBatch(r, fetched[0])), r, fetched[1..]))
  }

  function AfterBatches(s: State, r: RelayId, fetched: seq<seq<EventId>>): State
    decreases |fetched|
  {
    if fetched == [] then s else AfterBatches(After(s, CompleteBatch(r, fetched[0])), r, fetched[1..])
  }

  /** What one batch leaves: the rows it took are no younger than those it left. */
  lemma OneBatch(s: State, r: RelayId, rows: seq<EventId>)
    requires s.open == map[] && Fetches(s, rows)
    ensures var s' := After(s, CompleteBatch(r, rows));
            && s'.open == map[] && s'.table.Keys == s.table.Keys && s'.bus == s.bus + rows
            && (forall id :: Occurred(s', id) == Occurred(s, id))
            && Unpublished(s') == Unpublished(s) - Elems(rows)
            && |Unpublished(s')| == if |Unpublished(s)| <= BATCH_LIMIT then 0 else |Unpublished(s)| - BATCH_LIMIT
  {
    var s' := After(s, CompleteBatch(r, rows));
    BatchRuns(s, r, rows);
    BatchSize(s, rows);
    DistinctSize(rows);
    SubsetSize(Elems(rows), Unpublished(s));
    assert Unpublished(s') == Unpublished(s) - Elems(rows);
  }

  ghost predicate OldestTaken(s: State, rows: seq<EventId>, left: set<EventId>) {
    forall d, u :: d in rows && u in left ==> Occurred(s, d) <= Occurred(s, u)
  }

  /** The rows are in order of age. */
  ghost predicate ByAge(s: State, rows: seq<EventId>) {
    forall i, j :: 0 <= i < j < |rows| ==> Occurred(s, rows[i]) <= Occurred(s, rows[j])
  }

  lemma FetchedAreOldest(s: State, rows: seq<EventId>)
    requires s.open == map[] && Fetches(s, rows)
    ensures ByAge(s, rows) && OldestTaken(s, rows, Unpublished(s) - Elems(rows))
  {
    assert forall u :: u in Unpublished(s) - Elems(rows) ==> Eligible(s, u) && u !in rows;
  }

  /** Rows taken first and then others from what was left are together in order of age. */
  lemma ByAgeConcat(s: State, first: seq<EventId>, rest: seq<EventId>, left: set<EventId>)
    requires ByAge(s, first) && ByAge(s, rest) && OldestTaken(s, first, left) && Elems(rest) <= left
    ensures ByAge(s, first + rest)
  {
    var all := first + rest;
    forall i, j | 0 <= i < j < |all|
      ensures Occurred(s, all[i]) <= Occurred(s, all[j])
    {
      if i < |first| <= j {
        assert all[i] in first && all[j] in Elems(rest);
      }
    }
  }

  /** drained takes s to t: it is published in order of age, exactly it is marked, and what is left is no older. */
  ghost predicate Drains(s: State, drained: seq<EventId>, t: State) {
    && t.bus == s.bus + drained
    && ByAge(s, drained) && OldestTaken(s, drained, Unpublished(t))
    && Elems(drained) <= Unpublished(s) && Unpublished(t) == Unpublished(s) - Elems(drained)
  }

  lemma DrainsMore(s: State, rows: seq<EventId>, mid: State, rest: seq<EventId>, t: State)
    requires Drains(s, rows, mid) && Drains(mid, rest, t) && forall id :: Occurred(mid, id) == Occurred(s, id)
    ensures Drains(s, rows + rest, t)
  {
    ByAgeConcat(s, rows, rest, Unpublished(mid));
    ElemsConcat(rows, rest);
    DrainedAreOldest(s, rows, rest, Unpublished(mid), Unpublished(t));
    assert s.bus + rows + rest == s.bus + (rows + rest);
  }

  lemma DrainedAreOldest(s: State, rows: seq<EventId>, rest: seq<EventId>, left: set<EventId>, last: set<EventId>)
    requires OldestTaken(s, rows, left) && OldestTaken(s, rest, last) && last <= left
    ensures OldestTaken(s, rows + rest, last)
  {
  }

  /** k complete batches publish and mark all rows, or k times the batch limit, oldest first. */
  lemma {:induction false} BatchesDrain(s: State, r: RelayId, fetched: seq<seq<EventId>>)
    requires s.open == map[] && Batches(s, r, fetched)
    ensures var t, n := AfterBatches(s, r, fetched), |fetched| * BATCH_LIMIT;
            && t.open == map[] && t.table.Keys == s.table.Keys && Drains(s, Concat(fetched), t)
            && |Unpublished(t)| == if |Unpublished(s)| <= n then 0 else |Unpublished(s)| - n
    decreases |fetched|
  {
    if fetched == [] {
      assert s.bus + [] == s.bus;
    } else {
      var mid := After(s, CompleteBatch(r, fetched[0]));
      OneBatch(s, r, fetched[0]);
      FetchedAreOldest(s, fetched[0]);
      BatchSize(s, fetched[0]);
      BatchesDrain(mid, r, fetched[1..]);
      DrainsMore(s, fetched[0], mid, Concat(fetched[1..]), AfterBatches(s, r, fetched));
    }
  }

  // ---- Why commits must be in time order ----

  lemma {:induction false} BatchAllowed(r: RelayId, n: nat)
    ensures forall step :: step in PublishesThenFinish(r, n) ==> !step.Commit? && step.relay == r
  {
    if n > 0 {
      BatchAllowed(r, n - 1);
    }
  }

  /** A complete batch, where a relay may act. */
  lemma BatchReaches(allowed: Step -> bool, s: State, r: RelayId, rows: seq<EventId>)
    requires s.open == map[] && Fetches(s, rows)
    requires forall step: Step :: !step.Commit? && step.relay == r ==> allowed(step)
    ensures Reaches(allowed, s, s.(table := Mark(s.table, rows), bus := s.bus + rows))
  {
    BatchRuns(s, r, rows);
    BatchAllowed(r, |rows|);
    assert RunsTo(s, CompleteBatch(r, rows), s.(table := Mark(s.table, rows), bus := s.bus + rows));
  }

  /** A complete batch for the one row that is left. */
  lemma DeliverLone(s: State, id: EventId)
    requires s.open == map[] && id in s.table && !s.table[id].published
    requires forall other :: other in s.table && other != id ==> s.table[other].published
    ensures Reaches(OnlyRelay(0), s, s.(table := s.table[id := s.table[id].(published := true)], bus := s.bus + [id]))
  {
    LoneFetch(s, 0, id);
    assert Mark(s.table, [id]) == s.table[id := s.table[id].(published := true)];
    BatchReaches(OnlyRelay(0), s, 0, [id]);
  }

  /** Row 2 has been delivered. */
  function OneDelivered(e2: Event): State {
    State(map[2 := e2.(published := true)], map[], [2], [])
  }

  function BothDelivered(e1: Event, e2: Event): State {
    State(map[1 := e1.(published := true), 2 := e2.(published := true)], map[], [2, 1], [])
  }

  lemma LateOne(e1: Event, e2: Event)
    requires !e1.published
    ensures Reaches(OnlyRelay(0), OneDelivered(e2), BothDelivered(e1, e2))
  {
    var s2 := OneDelivered(e2);
    var s3 := s2.(table := s2.table + map[1 := e1]);
    DeliverLone(s3, 1);
    assert s3.(table := s3.table[1 := e1.(published := true)], bus := [2] + [1]) == BothDelivered(e1, e2);
    ReachStep(OnlyRelay(0), s2, Commit(map[1 := e1]), s3, BothDelivered(e1, e2));
  }

  /** With one relay the order can be lost too: an older row that commits late is published after a younger one. */
  lemma LateCommitReorders(e1: Event, e2: Event)
    requires !e1.published && !e2.published && e1.occurredAt < e2.occurredAt
    ensures Reaches(OnlyRelay(0), State(map[], map[], [], []), BothDelivered(e1, e2))
  {
    var s0 := State(map[], map[], [], []);
    var s1 := s0.(table := map[2 := e2]);
    LateOne(e1, e2);
    DeliverLone(s1, 2);
    assert s1.(table := s1.table[2 := e2.(published := true)], bus := [] + [2]) == OneDelivered(e2);
    ReachOn(OnlyRelay(0), s1, OneDelivered(e2), BothDelivered(e1, e2));
    ReachStep(OnlyRelay(0), s0, Commit(map[2 := e2]), s1, BothDelivered(e1, e2));
  }

  // ---- The outbox can always be drained ----

  lemma {:induction false} OldestOf(s: State, from: set<EventId>)
    requires from != {}
    ensures exists id :: id in from && forall other :: other in from ==> Occurred(s, id) <= Occurred(s, other)
    decreases |from|
  {
    var first := Member(from);
    if from == {first} {
      assert forall other :: other in from ==> Occurred(s, first) <= Occurred(s, other);
    } else {
      OldestOf(s, from - {first});
      var rest :| rest in from - {first}
               && forall other :: other in from - {first} ==> Occurred(s, rest) <= Occurred(s, other);
      var id := if Occurred(s, first) <= Occurred(s, rest) then first else rest;
      assert forall other :: other in from ==> Occurred(s, id) <= Occurred(s, other);
    }
  }

  /** rows are the n oldest of from, or all of them. */
  ghost predicate Oldest(s: State, from: set<EventId>, n: nat, rows: seq<EventId>) {
    && |rows| <= n && Distinct(rows) && Elems(rows) <= from && ByAge(s, rows)
    && OldestTaken(s, rows, from - Elems(rows)) && (|rows| < n ==> Elems(rows) == from)
  }

  lemma OldestFirstOf(s: State, from: set<EventId>, n: nat, id: EventId, rest: seq<EventId>)
    requires id in from && (forall other :: other in from ==> Occurred(s, id) <= Occurred(s, other))
    requires Oldest(s, from - {id}, n, rest)
    ensures Oldest(s, from, n + 1, [id] + rest)
  {
    var rows := [id] + rest;
    ElemsConcat([id], rest);
    assert Elems([id]) == {id};
    assert from - Elems(rows) == from - {id} - Elems(rest);
    forall i, j | 0 <= i < j < |rows|
      ensures rows[i] != rows[j] && Occurred(s, rows[i]) <= Occurred(s, rows[j])
    {
      assert rows[j] == rest[j - 1] && rest[j - 1] in Elems(rest);
    }
  }

  lemma {:induction false} TakeOldest(s: State, from: set<EventId>, n: nat)
    ensures exists rows :: Oldest(s, from, n, rows)
    decreases n
  {
    if n > 0 && from != {} {
      OldestOf(s, from);
      var id :| id in from && forall other :: other in from ==> Occurred(s, id) <= Occurred(s, other);
      TakeOldest(s, from - {id}, n - 1);
      var rest :| Oldest(s, from - {id}, n - 1, rest);
      OldestFirstOf(s, from, n - 1, id, rest);
    } else {
      assert Oldest(s, from, n, []);
    }
  }

  lemma OldestAreFetched(s: State, eligible: set<EventId>, rows: seq<EventId>)
    requires (forall id :: id in eligible <==> Eligible(s, id)) && Oldest(s, eligible, BATCH_LIMIT, rows)
    ensures Fetches(s, rows)
  {
    forall i | 0 <= i < |rows|
      ensures Eligible(s, rows[i])
    {
      assert rows[i] in Elems(rows);
    }
    forall id | id in s.table && Eligible(s, id) && id !in rows
      ensures |rows| == BATCH_LIMIT && forall i :: 0 <= i < |rows| ==> Occurred(s, rows[i]) <= Occurred(s, id)
    {
      assert id in eligible;
      assert id !in Elems(rows);
      assert forall i :: 0 <= i < |rows| ==> rows[i] in rows;
    }
  }

  /** The fetch query always has an answer. */
  lemma FetchExists(s: State)
    ensures exists rows :: Fetches(s, rows)
  {
    var eligible := set id | id in s.table && Eligible(s, id);
    TakeOldest(s, eligible, BATCH_LIMIT);
    var rows :| Oldest(s, eligible, BATCH_LIMIT, rows);
    OldestAreFetched(s, eligible, rows);
  }

  /** Every open batch can be given up. */
  lemma {:induction false} CloseAll(s: State)
    requires Inv(s)
    ensures exists t :: Reaches(NoCommit(), s, t) && t.open == map[] && t.table == s.table
    decreases |s.open|
  {
    if s.open == map[] {
      ReachSelf(NoCommit(), s);
    } else {
      var r := Member(s.open.Keys);
      var s' := Apply(s, Abort(r));
      StepKeeps(s, Abort(r));
      assert s'.open.Keys == s.open.Keys - {r};
      assert |s'.open| == |s'.open.Keys| < |s.open.Keys|;
      CloseAll(s');
      var t :| Reaches(NoCommit(), s', t) && t.open == map[] && t.table == s'.table;
      ReachStep(NoCommit(), s, Abort(r), s', t);
    }
  }

  /** Nothing is locked and nothing is left to publish. */
  ghost predicate Drained(t: State) {
    t.open == map[] && Unpublished(t) == {}
  }

  /** Batch after batch, one relay delivers everything. */
  lemma {:induction false} DrainAll(s: State)
    requires s.open == map[]
    ensures exists t :: Reaches(NoCommit(), s, t) && Drained(t) && t.table.Keys == s.table.Keys
    decreases |Unpublished(s)|
  {
    if Unpublished(s) == {} {
      ReachSelf(NoCommit(), s);
    } else {
      FetchExists(s);
      var rows :| Fetches(s, rows);
      var s' := s.(table := Mark(s.table, rows), bus := s.bus + rows);
      OneBatch(s, 0, rows);
      BatchRuns(s, 0, rows);
      BatchReaches(NoCommit(), s, 0, rows);
      assert |Unpublished(s')| < |Unpublished(s)|;
      DrainAll(s');
      var t :| Reaches(NoCommit(), s', t) && Drained(t) && t.table.Keys == s'.table.Keys;
      ReachOn(NoCommit(), s, s', t);
    }
  }

  /** Every row has been published and is marked, and no batch is open. */
  ghost predicate AllDelivered(s: State, t: State) {
    t.open == map[] && t.table.Keys == s.table.Keys && forall id :: id in s.table ==> Marked(t, id) && id in t.bus
  }

  /**
    Nothing is ever stuck: after any run, whatever batches are open then, some
    steps without further commits close them all, and publish and mark every
    row.
   */
  lemma CanAlwaysDrain(s0: State, past: seq<Step>)
    requires Init(s0) && Run(s0, past)
    ensures exists t :: Reaches(NoCommit(), After(s0, past), t) && AllDelivered(After(s0, past), t)
  {
    var s := After(s0, past);
    InitInv(s0);
    RunKeeps(s0, past);
    CloseAll(s);
    var mid :| Reaches(NoCommit(), s, mid) && mid.open == map[] && mid.table == s.table;
    DrainAll(mid);
    var t :| Reaches(NoCommit(), mid, t) && Drained(t) && t.table.Keys == mid.table.Keys;
    ReachOn(NoCommit(), s, mid, t);
    var steps: seq<Step> :| RunsTo(s, steps, t) && forall step :: step in steps ==> NoCommit()(step);
    RunKeeps(s, steps);
    forall id | id in s.table
      ensures Marked(t, id) && id in t.bus
    {
      assert id !in Unpublished(t);
      assert Balanced(t, id);
      assert Count(t.bus, id) >= 1;
    }
  }
}
