/** What the rows in the audit log promise, exactly, and runs that show where they and the idempotency key fall
    short. */
module ProtocolRaces {
  import opened Wrappers
  import opened Actors
  import opened Protocol
  import opened ProtocolInvariant

  // ---------- when recorded rows are current ----------

  /** Of all columns, only the state, the key and the replay mark of a row can move under a request that has read it. */
  lemma SeenIsCurrentExactly(engine: Engine, rows: map<nat, Row>, p: Pending)
    requires PendingOk(engine, rows, p) && RowOk(engine, rows[p.id])
    ensures p.seen == rows[p.id] <==>
            && p.seen.state == rows[p.id].state && p.seen.key == rows[p.id].key
            && p.seen.replayVerified == rows[p.id].replayVerified
  {
  }

  ghost predicate CommitsWith(engine: Engine, sys: System, e: Event) {
    && (e.CommitSimulate? || e.CommitTransition? || e.CommitReplay?)
    && Step(engine, sys, e).1 == Committed
  }

  /** The columns that the commit of `p` neither checks nor overwrites are still those that were read. */
  ghost predicate BeforeCurrent(p: Pending, row: Row) {
    && p.seen.key == row.key && p.seen.replayVerified == row.replayVerified
    && (p.ReplayReady? ==> p.seen.state == row.state)
  }

  ghost predicate AfterCurrent(p: Pending, row: Row) {
    && (p.SimulateReady? || p.seen.key == row.key)
    && (if p.ReplayReady? then p.seen.state == row.state else p.seen.replayVerified == row.replayVerified)
  }

  lemma RecordedExactly(engine: Engine, sys: System, e: Event)
    requires Inv(engine, sys) && CommitsWith(engine, sys, e)
    ensures e.token in sys.pending && |Step(engine, sys, e).0.db.audit| > 0
    ensures var p, after := sys.pending[e.token], Step(engine, sys, e).0.db;
      var r := after.audit[|after.audit| - 1];
      && r.scenario == p.id && p.id in sys.db.rows && p.id in after.rows
      && (r.before == Some(sys.db.rows[p.id]) <==> BeforeCurrent(p, sys.db.rows[p.id]))
      && (r.after == after.rows[p.id] <==> AfterCurrent(p, sys.db.rows[p.id]))
  {
    var p := sys.pending[e.token];
    assert PendingOk(engine, sys.db.rows, p) && RowOk(engine, sys.db.rows[p.id]);
    SeenIsCurrentExactly(engine, sys.db.rows, p);
  }

  /** The rows in the log, exactly. In every run, a commit records as "before" the row it changes if and only if the
      key and the replay mark, and for a replay also the state, are still those that the request read; and it records
      as "after" the row it leaves if and only if those that it does not set itself are. */
  lemma RecordedRowsExactly(engine: Engine, states: seq<System>, events: seq<Event>, n: nat)
    requires engine.Coherent() && IsRun(engine, states, events) && Inv(engine, states[0]) && n < |events|
    requires CommitsWith(engine, states[n], events[n])
    ensures events[n].token in states[n].pending && |states[n + 1].db.audit| > 0
    ensures var p, before, after := states[n].pending[events[n].token], states[n].db.rows, states[n + 1].db.rows;
      var r := states[n + 1].db.audit[|states[n + 1].db.audit| - 1];
      && r.scenario == p.id && p.id in before && p.id in after
      && (r.before == Some(before[p.id]) <==> BeforeCurrent(p, before[p.id]))
      && (r.after == after[p.id] <==> AfterCurrent(p, before[p.id]))
  {
    RunKeepsInv(engine, states, events, n);
    assert StepsTo(engine, states[n], events[n], states[n + 1]);
    RecordedExactly(engine, states[n], events[n]);
  }

  // ---------- runs in which they are not ----------

  ghost predicate Idle(sys: System) {
    forall t :: t !in sys.pending
  }

  ghost predicate Unused(sys: System, key: string) {
    forall id :: id in sys.db.rows ==> sys.db.rows[id].key != key
  }

  /** The states that events lead through. */
  function Steps(engine: Engine, sys: System, events: seq<Event>): (states: seq<System>)
    ensures |states| == |events| + 1 && states[0] == sys
    ensures forall i :: 0 <= i < |events| ==> states[i + 1] == Step(engine, states[i], events[i]).0
  {
    if events == [] then [sys]
    else
      var front := Steps(engine, sys, events[..|events| - 1]);
      front + [Step(engine, front[|front| - 1], events[|events| - 1]).0]
  }

  function Redraft(id: nat, actor: Actor): seq<Event> {
    [BeginTransition(1, id, Ready, "", actor), BeginTransition(2, id, Draft, "", actor), CommitTransition(2, true)]
  }

  /** A transition reads its row while the scenario is simulated; meanwhile the scenario returns to draft. */
  lemma AfterRedraft(engine: Engine, sys: System, id: nat, actor: Actor) returns (s: seq<System>)
    requires Idle(sys) && id in sys.db.rows && sys.db.rows[id].state == Simulated && Owns(actor, sys.db.rows[id])
    ensures IsRun(engine, s, Redraft(id, actor)) && s[0] == sys
    ensures s[3].pending == map[1 := TransitionReady(id, Ready, "", actor, sys.db.rows[id])]
    ensures s[3].db.rows == sys.db.rows[id := sys.db.rows[id].(state := Draft)]
  {
    var row, events := sys.db.rows[id], Redraft(id, actor);
    s := Steps(engine, sys, events);
    assert s[1] == sys.(pending := sys.pending[1 := TransitionReady(id, Ready, "", actor, row)]);
    assert s[2] == s[1].(pending := s[1].pending[2 := TransitionReady(id, Draft, "", actor, row)]);
    assert s[3].db.rows == sys.db.rows[id := row.(state := Draft)];
    assert s[3].pending == map[1 := TransitionReady(id, Ready, "", actor, row)];
  }

  function Resimulation(id: nat, key: string, actor: Actor): seq<Event> {
    [BeginSimulate(3, id, key, actor), LookupKey(3), CommitSimulate(3, true), CommitTransition(1, true)]
  }

  /** A draft is simulated under a fresh key, and then the transition that read an older row commits. */
  lemma AfterResimulation(engine: Engine, sys: System, id: nat, key: string, actor: Actor, seen: Row)
    returns (s: seq<System>)
    requires sys.pending == map[1 := TransitionReady(id, Ready, "", actor, seen)]
    requires id in sys.db.rows && sys.db.rows[id].state == Draft && Owns(actor, sys.db.rows[id])
             && seen.state == Simulated
    requires engine.run(sys.db.rows[id].input).Ok? && 0 < |key| <= 128 && Unused(sys, key)
    ensures IsRun(engine, s, Resimulation(id, key, actor)) && s[0] == sys
    ensures Step(engine, s[3], CommitTransition(1, true)).1 == Committed
    ensures id in s[3].db.rows && s[3].db.rows[id].state == Simulated && s[3].db.rows[id].key == key
    ensures id in s[4].db.rows && s[4].db.rows[id].state == Ready && s[4].db.rows[id].key == key
    ensures |s[4].db.audit| > 0
    ensures s[4].db.audit[|s[4].db.audit| - 1]
            == AuditRecord(id, TransitionAction, actor.userId, Some(seen), seen.(state := Ready))
  {
    var row, events := sys.db.rows[id], Resimulation(id, key, actor);
    var results := engine.run(row.input).value;
    s := Steps(engine, sys, events);
    assert s[1] == sys.(pending := sys.pending[3 := SimulateRead(id, key, actor, row)]);
    assert s[2] == sys.(pending := sys.pending[3 := SimulateReady(id, key, actor, row, results)]);
    assert s[3].db.rows == sys.db.rows[id := row.(state := Simulated, results := results, key := key)];
    assert s[3].pending == sys.pending;
  }

  /** Only states chain in the log. A row recorded as "before" can be older than the row that was changed: the
      scenario returned to draft and was re-simulated under another key between the read and the commit of a
      transition, whose record then carries the old key on both sides. */
  lemma RecordedRowsCanBeStale(engine: Engine, sys: System, id: nat, key: string, actor: Actor)
    returns (states: seq<System>, events: seq<Event>)
    requires engine.Coherent() && Inv(engine, sys) && Idle(sys)
    requires id in sys.db.rows && sys.db.rows[id].state == Simulated && Owns(actor, sys.db.rows[id])
    requires 0 < |key| <= 128 && Unused(sys, key)
    ensures IsRun(engine, states, events) && states[0] == sys && |events| == 7
    ensures id in states[6].db.rows && states[6].db.rows[id].key == key && |states[7].db.audit| > 0
    ensures var r := states[7].db.audit[|states[7].db.audit| - 1];
      && r.scenario == id && r.action == TransitionAction && r.before == Some(sys.db.rows[id])
      && r.before != Some(states[6].db.rows[id]) && r.after.key != key
  {
    assert RowOk(engine, sys.db.rows[id]);
    var first := AfterRedraft(engine, sys, id, actor);
    var second := AfterResimulation(engine, first[3], id, key, actor, sys.db.rows[id]);
    states, events := first + second[1..], Redraft(id, actor) + Resimulation(id, key, actor);
    JoinedRun(engine, first, Redraft(id, actor), second, Resimulation(id, key, actor));
    assert states[6] == second[3] && states[7] == second[4];
  }

  function ReplayInBetween(id: nat, actor: Actor): seq<Event> {
    [BeginTransition(1, id, Ready, "", actor), BeginReplay(2, id, actor), CommitReplay(2, true),
     CommitTransition(1, true)]
  }

  /** A replay between the read and the commit of a transition is enough: the transition records a row without the
      mark. */
  lemma ReplayMakesRecordStale(engine: Engine, sys: System, id: nat, actor: Actor) returns (s: seq<System>)
    requires engine.Coherent() && Inv(engine, sys) && Idle(sys)
    requires id in sys.db.rows && sys.db.rows[id].state == Simulated && !sys.db.rows[id].replayVerified
    requires Owns(actor, sys.db.rows[id])
    ensures IsRun(engine, s, ReplayInBetween(id, actor)) && s[0] == sys && |s| == 5
    ensures id in s[3].db.rows && s[3].db.rows[id] == sys.db.rows[id].(replayVerified := true)
    ensures Step(engine, s[3], CommitTransition(1, true)).1 == Committed && |s[4].db.audit| > 0
    ensures s[4].db.audit[|s[4].db.audit| - 1].before == Some(sys.db.rows[id]) != Some(s[3].db.rows[id])
  {
    var row := sys.db.rows[id];
    assert RowOk(engine, row);
    var events := ReplayInBetween(id, actor);
    s := Steps(engine, sys, events);
    assert s[1] == System(sys.db, map[1 := TransitionReady(id, Ready, "", actor, row)]);
    AfterReplay(engine, s[1], id, actor);
    assert s[2] == Step(engine, s[1], events[1]).0 && s[3] == Step(engine, s[2], events[2]).0;
  }

  lemma AfterReplay(engine: Engine, sys: System, id: nat, actor: Actor)
    requires 2 !in sys.pending && id in sys.db.rows && Owns(actor, sys.db.rows[id]) && sys.db.rows[id].state != Draft
    requires ResultsOk(engine, sys.db.rows[id])
    ensures var read := Step(engine, sys, BeginReplay(2, id, actor)).0;
      var after := Step(engine, read, CommitReplay(2, true)).0;
      && after.db.rows == sys.db.rows[id := sys.db.rows[id].(replayVerified := true)] && after.pending == sys.pending
  {
    var read := Step(engine, sys, BeginReplay(2, id, actor)).0;
    assert read.pending == sys.pending[2 := ReplayReady(id, actor, sys.db.rows[id], true)];
  }

  // ---------- one key, two simulations ----------

  function TwoLookups(id: nat, key: string, actor: Actor): seq<Event> {
    [BeginSimulate(1, id, key, actor), BeginSimulate(2, id, key, actor), LookupKey(1), LookupKey(2)]
  }

  /** Two requests with one key look it up before either commits. */
  lemma AfterTwoLookups(engine: Engine, sys: System, id: nat, key: string, actor: Actor) returns (s: seq<System>)
    requires Idle(sys) && id in sys.db.rows && sys.db.rows[id].state == Draft && Owns(actor, sys.db.rows[id])
    requires engine.run(sys.db.rows[id].input).Ok? && 0 < |key| <= 128 && Unused(sys, key)
    ensures IsRun(engine, s, TwoLookups(id, key, actor)) && s[0] == sys && s[4].db == sys.db
    ensures var p := SimulateReady(id, key, actor, sys.db.rows[id], engine.run(sys.db.rows[id].input).value);
      s[4].pending == map[1 := p, 2 := p]
  {
    var row := sys.db.rows[id];
    var reading := SimulateRead(id, key, actor, row);
    var ready := SimulateReady(id, key, actor, row, engine.run(row.input).value);
    s := Steps(engine, sys, TwoLookups(id, key, actor));
    assert s[1] == System(sys.db, map[1 := reading]);
    assert s[2] == System(sys.db, map[1 := reading, 2 := reading]);
    assert s[3] == System(sys.db, map[1 := ready, 2 := reading]);
    assert s[4] == System(sys.db, map[1 := ready, 2 := ready]);
  }

  /** The key can be committed by any request that holds it while the scenario is a draft and no other one has the
      key. */
  lemma DraftCommits(engine: Engine, sys: System, token: nat, p: Pending) returns (s: seq<System>)
    requires p.SimulateReady? && token in sys.pending && sys.pending[token] == p
    requires p.id in sys.db.rows && sys.db.rows[p.id].state == Draft && !KeyTaken(sys.db.rows, p.id, p.key)
    ensures IsRun(engine, s, [CommitSimulate(token, true)]) && s[0] == sys
    ensures Step(engine, sys, CommitSimulate(token, true)).1 == Committed
    ensures s[1].pending == sys.pending - {token}
    ensures var row := sys.db.rows[p.id];
      s[1].db.rows == sys.db.rows[p.id := row.(state := Simulated, results := p.results, key := p.key)]
  {
    s := [sys, Step(engine, sys, CommitSimulate(token, true)).0];
  }

  function Return(id: nat, actor: Actor): seq<Event> {
    [BeginTransition(3, id, Draft, "", actor), CommitTransition(3, true)]
  }

  lemma AfterReturn(engine: Engine, sys: System, id: nat, actor: Actor) returns (s: seq<System>)
    requires 3 !in sys.pending && id in sys.db.rows && sys.db.rows[id].state == Simulated
             && Owns(actor, sys.db.rows[id])
    ensures IsRun(engine, s, Return(id, actor)) && s[0] == sys && s[2].pending == sys.pending
    ensures s[2].db.rows == sys.db.rows[id := sys.db.rows[id].(state := Draft)]
  {
    var row := sys.db.rows[id];
    s := Steps(engine, sys, Return(id, actor));
    assert s[1] == sys.(pending := sys.pending[3 := TransitionReady(id, Draft, "", actor, row)]);
    assert s[2].pending == sys.pending;
  }

  function FirstSimulation(id: nat, key: string, actor: Actor): seq<Event> {
    TwoLookups(id, key, actor) + [CommitSimulate(1, true)]
  }

  function SecondSimulation(id: nat, actor: Actor): seq<Event> {
    Return(id, actor) + [CommitSimulate(2, true)]
  }

  lemma AfterFirstSimulation(engine: Engine, sys: System, id: nat, key: string, actor: Actor, p: Pending)
    returns (s: seq<System>)
    requires Idle(sys) && id in sys.db.rows && sys.db.rows[id].state == Draft && Owns(actor, sys.db.rows[id])
    requires engine.run(sys.db.rows[id].input).Ok? && 0 < |key| <= 128 && Unused(sys, key)
    requires p == SimulateReady(id, key, actor, sys.db.rows[id], engine.run(sys.db.rows[id].input).value)
    ensures IsRun(engine, s, FirstSimulation(id, key, actor)) && s[0] == sys
    ensures s[4].pending == map[1 := p, 2 := p] && Step(engine, s[4], CommitSimulate(1, true)).1 == Committed
    ensures s[5].pending == map[2 := p]
    ensures s[5].db.rows == sys.db.rows[id := sys.db.rows[id].(state := Simulated, results := p.results, key := key)]
  {
    var looked := AfterTwoLookups(engine, sys, id, key, actor);
    var first := DraftCommits(engine, looked[4], 1, p);
    JoinedRun(engine, looked, TwoLookups(id, key, actor), first, [CommitSimulate(1, true)]);
    s := looked + first[1..];
  }

  lemma AfterSecondSimulation(engine: Engine, sys: System, id: nat, key: string, actor: Actor, p: Pending)
    returns (s: seq<System>)
    requires p.SimulateReady? && p.id == id && p.key == key && sys.pending == map[2 := p]
    requires id in sys.db.rows && sys.db.rows[id].state == Simulated && sys.db.rows[id].key == key
             && Owns(actor, sys.db.rows[id])
    requires !KeyTaken(sys.db.rows, id, key)
    ensures IsRun(engine, s, SecondSimulation(id, actor)) && s[0] == sys
    ensures s[2].pending == map[2 := p] && Step(engine, s[2], CommitSimulate(2, true)).1 == Committed
  {
    var back := AfterReturn(engine, sys, id, actor);
    var second := DraftCommits(engine, back[2], 2, p);
    JoinedRun(engine, back, Return(id, actor), second, [CommitSimulate(2, true)]);
    s := back + second[1..];
  }

  /** A key answers every request that looks it up once it is bound, but it does not bound the number of simulations:
      a request that had looked it up before can still commit it again, if the scenario has returned to draft by
      then. */
  lemma KeyCanSimulateTwice(engine: Engine, sys: System, id: nat, key: string, actor: Actor) returns (s: seq<System>)
    requires engine.Coherent() && Inv(engine, sys) && Idle(sys)
    requires id in sys.db.rows && sys.db.rows[id].state == Draft && Owns(actor, sys.db.rows[id])
    requires 0 < |key| <= 128 && Unused(sys, key)
    ensures IsRun(engine, s, FirstSimulation(id, key, actor) + SecondSimulation(id, actor)) && s[0] == sys && |s| == 9
    ensures var p := SimulateReady(id, key, actor, sys.db.rows[id], engine.run(sys.db.rows[id].input).value);
      && s[4].pending == map[1 := p, 2 := p] && s[7].pending == map[2 := p]
    ensures Step(engine, s[4], CommitSimulate(1, true)).1 == Committed
    ensures Step(engine, s[7], CommitSimulate(2, true)).1 == Committed
  {
    assert RowOk(engine, sys.db.rows[id]);
    var p := SimulateReady(id, key, actor, sys.db.rows[id], engine.run(sys.db.rows[id].input).value);
    var first := AfterFirstSimulation(engine, sys, id, key, actor, p);
    var second := AfterSecondSimulation(engine, first[5], id, key, actor, p);
    JoinedRun(engine, first, FirstSimulation(id, key, actor), second, SecondSimulation(id, actor));
    s := first + second[1..];
    assert s[4] == first[4] && s[7] == second[2];
  }

  lemma JoinedRun(engine: Engine, s: seq<System>, e: seq<Event>, t: seq<System>, f: seq<Event>)
    requires IsRun(engine, s, e) && IsRun(engine, t, f) && s[|s| - 1] == t[0]
    ensures IsRun(engine, s + t[1..], e + f)
  {
    var states, events := s + t[1..], e + f;
    forall i | 0 <= i < |events|
      ensures StepsTo(engine, states[i], events[i], states[i + 1])
    {
      if i < |e| {
        assert states[i] == s[i] && states[i + 1] == s[i + 1] && events[i] == e[i];
        assert StepsTo(engine, s[i], e[i], s[i + 1]);
      } else {
        var k := i - |e|;
        assert states[i] == t[k] && states[i + 1] == t[k + 1] && events[i] == f[k];
        assert StepsTo(engine, t[k], f[k], t[k + 1]);
      }
    }
  }
}
