/**
  The code of one relay (pkg/platform/db/outbox/relay.go) running among other
  participants. Every action it takes is a step of Outbox, so what Outbox
  proves of all runs holds of it.
 */
module Relay {
  import opened Lists
  import opened Outbox

  /** The relay a step belongs to, if any. */
  function Actor(step: Step): Option<RelayId> {
    match step
    case Commit(_) => None
    case Fetch(r, _) => Some(r)
    case Publish(r) => Some(r)
    case Abort(r) => Some(r)
    case Finish(r) => Some(r)
  }

  /** The steps of one relay in a trace. */
  function Own(steps: seq<Step>, relay: RelayId): seq<Step> {
    if steps == [] then []
    else Own(steps[..|steps| - 1], relay)
         + if Actor(steps[|steps| - 1]) == Some(relay) then [steps[|steps| - 1]] else []
  }

  function Publishes(relay: RelayId, n: nat): seq<Step> {
    seq(n, _ => Publish(relay))
  }

  /** What one processBatch is allowed to do: lock, publish a prefix, then mark it or give up. */
  function Protocol(relay: RelayId, rows: seq<EventId>, published: nat, ok: bool): seq<Step> {
    [Fetch(relay, rows)] + Publishes(relay, published) + [if ok then Finish(relay) else Abort(relay)]
  }

  /** The database, the bus and everyone who uses them. */
  class World {
    var state: State
    ghost const origin: State
    ghost var trace: seq<Step>

    ghost predicate Valid()
      reads this
    {
      Init(origin) && RunsTo(origin, trace, state)
    }

    constructor ()
      ensures Valid() && trace == []
    {
      state := State(map[], map[], [], []);
      origin := State(map[], map[], [], []);
      trace := [];
    }

    method Take(step: Step)
      requires Valid() && Enabled(state, step)
      modifies this
      ensures Valid() && state == Apply(old(state), step) && trace == old(trace) + [step]
    {
      ghost var one := [step];
      assert one[1..] == [] && RunsTo(Apply(state, step), one[1..], Apply(state, step));
      assert RunsTo(state, one, Apply(state, step));
      RunConcat(origin, trace, one);
      state := Apply(state, step);
      trace := trace + [step];
    }

    /** Other participants act: whatever of steps is possible when its turn comes. */
    method Interfere(relay: RelayId, steps: seq<Step>)
      requires Valid()
      modifies this
      ensures Valid() && old(trace) <= trace && Own(trace, relay) == Own(old(trace), relay)
      ensures relay in state.open <==> relay in old(state).open
      ensures relay in state.open ==> state.open[relay] == old(state).open[relay]
    {
      for i := 0 to |steps|
        invariant Valid() && old(trace) <= trace && Own(trace, relay) == Own(old(trace), relay)
        invariant relay in state.open <==> relay in old(state).open
        invariant relay in state.open ==> state.open[relay] == old(state).open[relay]
      {
        if Actor(steps[i]) != Some(relay) && Enabled(state, steps[i]) {
          ghost var before := trace;
          Take(steps[i]);
          assert trace[..|trace| - 1] == before;
        }
      }
    }

    /** A step of the relay itself. */
    method Act(relay: RelayId, step: Step)
      requires Valid() && Enabled(state, step) && Actor(step) == Some(relay)
      modifies this
      ensures Valid() && old(trace) <= trace && state == Apply(old(state), step)
      ensures Own(trace, relay) == Own(old(trace), relay) + [step]
    {
      ghost var before := trace;
      Take(step);
      assert trace[..|trace| - 1] == before;
    }
  }

  // ---- The fetch query ----

  /** By occurred_at, ties by id. */
  function Older(table: map<EventId, Event>): (EventId, EventId) -> bool {
    (a: EventId, b: EventId) =>
      var ta := if a in table then table[a].occurredAt else 0;
      var tb := if b in table then table[b].occurredAt else 0;
      ta < tb || (ta == tb && a <= b)
  }

  lemma OlderIsOrder(table: map<EventId, Event>)
    ensures TotalOrder(Older(table))
  {
  }

  lemma OlderOccurred(s: State, all: seq<EventId>, i: nat, j: nat)
    requires Ordered(Older(s.table), all) && i < j < |all|
    ensures Occurred(s, all[i]) <= Occurred(s, all[j])
  {
    assert Older(s.table)(all[i], all[j]);
  }

  /** The first rows of the sorted eligible rows are what the fetch query returns. */
  lemma FirstRowsFetched(s: State, all: seq<EventId>, n: nat)
    requires Ordered(Older(s.table), all) && Distinct(all) && (forall id :: id in all <==> Eligible(s, id))
    requires n == if |all| <= BATCH_LIMIT then |all| else BATCH_LIMIT
    ensures Fetches(s, all[..n])
  {
    var rows := all[..n];
    forall i, j | 0 <= i < j < |rows|
      ensures Occurred(s, rows[i]) <= Occurred(s, rows[j])
    {
      OlderOccurred(s, all, i, j);
    }
    forall id | id in s.table && Eligible(s, id) && id !in rows
      ensures |rows| == BATCH_LIMIT && forall i :: 0 <= i < |rows| ==> Occurred(s, rows[i]) <= Occurred(s, id)
    {
      LeftOver(all, n, id);
      var k :| n <= k < |all| && all[k] == id;
      forall i | 0 <= i < |rows|
        ensures Occurred(s, rows[i]) <= Occurred(s, id)
      {
        OlderOccurred(s, all, i, k);
      }
    }
  }

  lemma LeftOver(all: seq<EventId>, n: nat, id: EventId)
    requires n <= |all| && id in all && id !in all[..n]
    ensures exists k :: n <= k < |all| && all[k] == id
  {
    assert forall i :: 0 <= i < n ==> all[i] in all[..n];
  }

  method FetchRows(s: State) returns (rows: seq<EventId>)
    ensures Fetches(s, rows)
    ensures |rows| <= 100 && (|rows| < 100 ==> forall id :: Eligible(s, id) ==> id in rows)
  {
    var eligible := set id | id in s.table && Eligible(s, id);
    OlderIsOrder(s.table);
    var all := Sort(Older(s.table), eligible);
    assert forall id :: id in all <==> id in Elems(all);
    rows := all[..if |all| <= BATCH_LIMIT then |all| else BATCH_LIMIT];
    FirstRowsFetched(s, all, |rows|);
  }

  // ---- processBatch ----

  /** What the world answers during one batch, and what the others do at each point of it. */
  datatype Environment = Environment(
    begins: bool,           // pool.Begin succeeds
    answers: bool,          // the fetch query succeeds
    readable: nat,          // rows.Next delivers at most this many rows; the loop does not check why it ended
    accepts: nat -> bool,   // row i is scanned and the bus accepts it
    marks: bool,            // the UPDATE succeeds
    commit: CommitAnswer,
    others: nat -> seq<Step>)

  /** How many of count fetched rows the loop looks at. */
  function Readable(env: Environment, count: nat): nat {
    if count <= env.readable then count else env.readable
  }

  /** The loop publishes n of count rows: the first n are accepted, and the next one, if it is looked at, is not. */
  ghost predicate Gets(env: Environment, count: nat, n: nat) {
    && n <= Readable(env, count) && (forall i: nat :: i < n ==> env.accepts(i))
    && (n < Readable(env, count) ==> !env.accepts(n))
  }

  /** The published rows are marked: none was refused, the UPDATE, if there is one, succeeds, and so does the commit. */
  predicate Marks(env: Environment, count: nat, n: nat) {
    n == Readable(env, count) && (n == 0 || env.marks) && !env.commit.RolledBack?
  }

  /** Begin and the fetch query. */
  method OpenBatch(w: World, relay: RelayId, env: Environment) returns (rows: Option<seq<EventId>>)
    requires w.Valid() && relay !in w.state.open
    modifies w
    ensures w.Valid() && old(w.trace) <= w.trace
    ensures rows.Some? <==> env.begins && env.answers
    ensures rows.None? ==> relay !in w.state.open && Own(w.trace, relay) == Own(old(w.trace), relay)
    ensures rows.Some? ==>
              && |rows.value| <= BATCH_LIMIT
              && relay in w.state.open && w.state.open[relay] == Batch(rows.value, 0)
              && Own(w.trace, relay) == Own(old(w.trace), relay) + [Fetch(relay, rows.value)]
  {
    if !env.begins {
      return None;
    }
    w.Interfere(relay, env.others(0));
    if !env.answers {
      return None;
    }
    var fetched := FetchRows(w.state);
    w.Act(relay, Fetch(relay, fetched));
    rows := Some(fetched);
  }

  /** The row loop: publishes a prefix of the batch in order; ok is false when the bus or the scan refused a row. */
  method PublishRows(w: World, relay: RelayId, fetched: seq<EventId>, env: Environment)
    returns (eventIDs: seq<EventId>, ok: bool)
    requires w.Valid() && relay in w.state.open && w.state.open[relay] == Batch(fetched, 0)
    modifies w
    ensures w.Valid() && old(w.trace) <= w.trace
    ensures |eventIDs| <= |fetched| && eventIDs == fetched[..|eventIDs|]
    ensures relay in w.state.open && w.state.open[relay] == Batch(fetched, |eventIDs|)
    ensures Own(w.trace, relay) == Own(old(w.trace), relay) + Publishes(relay, |eventIDs|)
    ensures Gets(env, |fetched|, |eventIDs|) && (ok <==> |eventIDs| == Readable(env, |fetched|))
  {
    eventIDs := [];
    ghost var past := Own(w.trace, relay);
    assert past + Publishes(relay, 0) == past;
    while |eventIDs| < |fetched| && |eventIDs| < env.readable
      invariant w.Valid() && old(w.trace) <= w.trace
      invariant |eventIDs| <= Readable(env, |fetched|) && eventIDs == fetched[..|eventIDs|]
      invariant forall i: nat :: i < |eventIDs| ==> env.accepts(i)
      invariant relay in w.state.open && w.state.open[relay] == Batch(fetched, |eventIDs|)
      invariant Own(w.trace, relay) == past + Publishes(relay, |eventIDs|)
      decreases |fetched| - |eventIDs|
    {
      var i := |eventIDs|;
      w.Interfere(relay, env.others(i + 1));
      if !env.accepts(i) {
        return eventIDs, false;
      }
      w.Act(relay, Publish(relay));
      assert past + Publishes(relay, i + 1) == past + Publishes(relay, i) + [Publish(relay)];
      eventIDs := eventIDs + [fetched[i]];
    }
    ok := true;
  }

  /** The UPDATE and the commit, or the deferred rollback. */
  method CloseBatch(w: World, relay: RelayId, eventIDs: seq<EventId>, ok: bool, env: Environment)
    returns (reported: bool, ghost marked: bool)
    requires w.Valid() && relay in w.state.open && |eventIDs| == w.state.open[relay].done <= |w.state.open[relay].rows|
    requires eventIDs == w.state.open[relay].Published()
    modifies w
    ensures w.Valid() && old(w.trace) <= w.trace && relay !in w.state.open
    ensures Own(w.trace, relay) == Own(old(w.trace), relay) + [if marked then Finish(relay) else Abort(relay)]
    ensures marked <==> ok && (eventIDs == [] || env.marks) && !env.commit.RolledBack?
    ensures reported <==> marked && env.commit.Committed?
    ensures marked ==> forall id :: id in eventIDs ==> Marked(w.state, id)
  {
    if !ok {
      w.Act(relay, Abort(relay));
      return false, false;
    }
    w.Interfere(relay, env.others(0));
    if (|eventIDs| > 0 && !env.marks) || env.commit.RolledBack? {
      w.Act(relay, Abort(relay));
      return false, false;
    }
    InitInv(w.origin);
    RunKeeps(w.origin, w.trace);
    assert forall id :: id in eventIDs ==> id in w.state.open[relay].rows;
    w.Act(relay, Finish(relay));
    return env.commit.Committed?, true;
  }

  /** Nothing goes wrong in a batch of at most BATCH_LIMIT rows. */
  ghost predicate Faultless(env: Environment) {
    && env.begins && env.answers && env.marks && env.commit.Committed?
    && env.readable >= BATCH_LIMIT && forall i: nat :: i < BATCH_LIMIT ==> env.accepts(i)
  }

  /**
    A batch is one pass of the protocol, or nothing when begin or the fetch
    fails: it locks, publishes in order until a row is refused or the read is
    cut, and marks exactly what it published unless a row was refused, the
    UPDATE failed or the commit did not happen. It reports success exactly
    when the commit is confirmed, and it never leaves its transaction open. A
    batch in which nothing goes wrong publishes and marks every row it locked.
   */
  method ProcessBatch(w: World, relay: RelayId, env: Environment)
    returns (ok: bool, ghost rows: seq<EventId>, ghost published: nat, ghost marked: bool)
    requires w.Valid() && relay !in w.state.open
    modifies w
    ensures w.Valid() && old(w.trace) <= w.trace && relay !in w.state.open
    ensures env.begins && env.answers ==>
              && |rows| <= BATCH_LIMIT && Gets(env, |rows|, published) && published <= |rows|
              && (marked <==> Marks(env, |rows|, published))
              && Own(w.trace, relay) == Own(old(w.trace), relay) + Protocol(relay, rows, published, marked)
    ensures !(env.begins && env.answers) ==> !marked && Own(w.trace, relay) == Own(old(w.trace), relay)
    ensures ok <==> marked && env.commit.Committed?
    ensures Faultless(env) ==> ok && published == |rows|
    ensures marked ==> forall k :: 0 <= k < published <= |rows| ==> Marked(w.state, rows[k])
  {
    rows, published, marked := [], 0, false;
    var fetched := OpenBatch(w, relay, env);
    if fetched.None? {
      return false, rows, published, marked;
    }
    rows := fetched.value;
    var eventIDs, accepted := PublishRows(w, relay, fetched.value, env);
    published := |eventIDs|;
    ok, marked := CloseBatch(w, relay, eventIDs, accepted, env);
    assert forall k :: 0 <= k < published ==> rows[k] == eventIDs[k] && eventIDs[k] in eventIDs;
  }

  // ---- Start ----

  /** steps is the pass of a batch that found its environment to be env. */
  ghost predicate PassOf(relay: RelayId, env: Environment, steps: seq<Step>) {
    exists rows: seq<EventId>, n: nat ::
      |rows| <= BATCH_LIMIT && Gets(env, |rows|, n) && steps == Protocol(relay, rows, n, Marks(env, |rows|, n))
  }

  /** The ticks whose begin and fetch succeed. */
  function Opened(ticks: seq<Environment>): seq<Environment> {
    if ticks == [] then []
    else Opened(ticks[..|ticks| - 1])
         + if ticks[|ticks| - 1].begins && ticks[|ticks| - 1].answers then [ticks[|ticks| - 1]] else []
  }

  /** steps are one pass for each environment, one after another. */
  ghost predicate Chain(relay: RelayId, envs: seq<Environment>, passes: seq<seq<Step>>, steps: seq<Step>) {
    && steps == Concat(passes) && |passes| == |envs|
    && forall i :: 0 <= i < |envs| ==> PassOf(relay, envs[i], passes[i])
  }

  lemma ChainGrows(relay: RelayId, envs: seq<Environment>, passes: seq<seq<Step>>, steps: seq<Step>,
                   env: Environment, pass: seq<Step>)
    requires Chain(relay, envs, passes, steps) && PassOf(relay, env, pass)
    ensures Chain(relay, envs + [env], passes + [pass], steps + pass)
  {
    ConcatAppend(passes, pass);
  }

  /** One more tick: one more pass, if the batch could be opened. */
  method Tick(w: World, relay: RelayId, env: Environment, ghost envs: seq<Environment>, ghost passes: seq<seq<Step>>,
              ghost steps: seq<Step>)
    returns (ghost passes': seq<seq<Step>>, ghost steps': seq<Step>)
    requires w.Valid() && relay !in w.state.open && Chain(relay, envs, passes, steps)
    modifies w
    ensures w.Valid() && old(w.trace) <= w.trace && relay !in w.state.open
    ensures Chain(relay, envs + if env.begins && env.answers then [env] else [], passes', steps')
    ensures forall past :: Own(old(w.trace), relay) == past + steps ==> Own(w.trace, relay) == past + steps'
  {
    var _, rows, published, marked := ProcessBatch(w, relay, env);
    passes', steps' := passes, steps;
    assert envs + [] == envs;
    if env.begins && env.answers {
      ghost var pass := Protocol(relay, rows, published, marked);
      assert PassOf(relay, env, pass);
      ChainGrows(relay, envs, passes, steps, env, pass);
      passes', steps' := passes + [pass], steps + pass;
    }
  }

  /**
    The tick loop: a failed batch is logged and the next tick tries again.
    What the relay does is a chain of passes of the protocol, one for each tick
    whose batch could be opened and as its environment answered, each closed
    before the next begins.
   */
  method Start(w: World, relay: RelayId, ticks: seq<Environment>)
    returns (ghost passes: seq<seq<Step>>, ghost steps: seq<Step>)
    requires w.Valid() && relay !in w.state.open
    modifies w
    ensures w.Valid() && old(w.trace) <= w.trace && relay !in w.state.open && Inv(w.state)
    ensures Chain(relay, Opened(ticks), passes, steps)
    ensures Own(w.trace, relay) == Own(old(w.trace), relay) + steps
    ensures forall id :: Marked(w.state, id) ==> id in w.state.bus
  {
    ghost var past := Own(w.trace, relay);
    passes, steps := [], [];
    assert past + [] == past;
    for i := 0 to |ticks|
      invariant w.Valid() && old(w.trace) <= w.trace && relay !in w.state.open
      invariant Chain(relay, Opened(ticks[..i]), passes, steps)
      invariant Own(w.trace, relay) == past + steps
    {
      assert ticks[..i + 1][..i] == ticks[..i];
      passes, steps := Tick(w, relay, ticks[i], Opened(ticks[..i]), passes, steps);
    }
    assert ticks[..|ticks|] == ticks;
    assert Inv(w.state) by {
      InitInv(w.origin);
      RunKeeps(w.origin, w.trace);
    }
    forall id | Marked(w.state, id)
      ensures id in w.state.bus
    {
      assert Balanced(w.state, id);
      assert Count(w.state.bus, id) >= 1;
    }
  }
}
