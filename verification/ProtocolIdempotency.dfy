/** What an idempotency key promises once it is bound to a scenario, and what it does not. */
module ProtocolIdempotency {
  import opened Wrappers
  import opened Protocol
  import opened ProtocolInvariant
  import opened ProtocolHistory

  ghost predicate Bound(sys: System, id: nat, key: string) {
    key != "" && id in sys.db.rows && sys.db.rows[id].key == key
  }

  /** The event re-simulates scenario `id` under another key. */
  ghost predicate Rebinds(engine: Engine, sys: System, e: Event, id: nat, key: string) {
    && e.CommitSimulate? && e.token in sys.pending && sys.pending[e.token].SimulateReady?
    && sys.pending[e.token].id == id && sys.pending[e.token].key != key
    && Step(engine, sys, e).1 == Committed
  }

  lemma BindingPersists(engine: Engine, sys: System, e: Event, id: nat, key: string)
    requires Allowed(sys, e) && Bound(sys, id, key) && !Rebinds(engine, sys, e, id, key)
    ensures Bound(Step(engine, sys, e).0, id, key)
  {
  }

  lemma BindingSurvivesStep(engine: Engine, states: seq<System>, events: seq<Event>, i: nat, id: nat, key: string)
    requires IsRun(engine, states, events) && i < |events| && Bound(states[i], id, key)
    requires !Rebinds(engine, states[i], events[i], id, key)
    ensures Bound(states[i + 1], id, key)
  {
    assert StepsTo(engine, states[i], events[i], states[i + 1]);
    BindingPersists(engine, states[i], events[i], id, key);
  }

  /** From state `n` to state `m`, `key` is bound to `id` and stays so: `id` is not re-simulated under another key. */
  ghost predicate BoundFrom(engine: Engine, states: seq<System>, events: seq<Event>, n: nat, m: nat, id: nat,
                            key: string) {
    && n <= m < |states| == |events| + 1 && Bound(states[n], id, key)
    && forall i :: n <= i < m ==> !Rebinds(engine, states[i], events[i], id, key)
  }

  lemma {:induction false} BindingPersistsOverRun(
    engine: Engine, states: seq<System>, events: seq<Event>, n: nat, m: nat, id: nat, key: string)
    requires IsRun(engine, states, events) && BoundFrom(engine, states, events, n, m, id, key)
    ensures Bound(states[m], id, key)
    decreases m
  {
    if n < m {
      BindingPersistsOverRun(engine, states, events, n, m - 1, id, key);
      BindingSurvivesStep(engine, states, events, m - 1, id, key);
    }
  }

  /** Looking up a bound key touches nothing: its own scenario gets the stored row, any other is refused. */
  lemma LookupWhileBound(engine: Engine, sys: System, token: nat, id: nat, key: string)
    requires Inv(engine, sys) && Bound(sys, id, key)
    requires token in sys.pending && sys.pending[token].SimulateRead? && sys.pending[token].key == key
    ensures var r := Step(engine, sys, LookupKey(token));
      && r.0.db == sys.db
      && r.1 == if sys.pending[token].id == id then Reused(sys.db.rows[id]) else Refused(KeyBoundElsewhere)
  {
    assert sys.db.rows[id].key == key;
    if sys.pending[token].id == id {
      assert !KeyTaken(sys.db.rows, id, key);
    } else {
      assert KeyTaken(sys.db.rows, sys.pending[token].id, key);
    }
  }

  /** The results stored while a key is bound stay those of the binding simulation. */
  lemma ResultsStayWhileSimulated(engine: Engine, states: seq<System>, events: seq<Event>, n: nat, m: nat, id: nat)
    requires engine.Coherent() && IsRun(engine, states, events) && Inv(engine, states[0]) && n <= m < |states|
    requires id in states[n].db.rows && states[n].db.rows[id].key != ""
    ensures id in states[m].db.rows && states[m].db.rows[id].results == states[n].db.rows[id].results
  {
    RunKeepsInv(engine, states, events, n);
    RunKeepsInv(engine, states, events, m);
    RunPersists(engine, states, events, n, m);
    assert RowOk(engine, states[n].db.rows[id]) && RowOk(engine, states[m].db.rows[id]);
  }

  /** Idempotency over runs. From the moment `key` is bound to `id` until `id` is re-simulated under another key, every
      simulation request that looks `key` up is answered without touching a row or the log: for `id` with the
      stored row, which carries the results of the binding simulation; for any other scenario with a refusal. */
  lemma IdempotentWhileBound(
    engine: Engine, states: seq<System>, events: seq<Event>, n: nat, m: nat, id: nat, key: string, token: nat)
    requires engine.Coherent() && IsRun(engine, states, events) && Inv(engine, states[0])
    requires m < |events| && BoundFrom(engine, states, events, n, m, id, key)
    requires events[m] == LookupKey(token) && token in states[m].pending
    requires states[m].pending[token].SimulateRead? && states[m].pending[token].key == key
    ensures Bound(states[m], id, key) && states[m].db.rows[id].results == states[n].db.rows[id].results
    ensures states[m + 1].db == states[m].db
    ensures Step(engine, states[m], events[m]).1 ==
      if states[m].pending[token].id == id then Reused(states[m].db.rows[id]) else Refused(KeyBoundElsewhere)
  {
    BindingPersistsOverRun(engine, states, events, n, m, id, key);
    RunKeepsInv(engine, states, events, m);
    assert StepsTo(engine, states[m], events[m], states[m + 1]);
    LookupWhileBound(engine, states[m], token, id, key);
    ResultsStayWhileSimulated(engine, states, events, n, m, id);
  }

  // ---------- requests that had looked the key up before it was bound ----------

  /** The request has looked `key` up and is about to commit. */
  ghost predicate ReadyWith(sys: System, token: nat, key: string) {
    token in sys.pending && sys.pending[token].SimulateReady? && sys.pending[token].key == key
  }

  predicate EndsSimulation(e: Event, token: nat) {
    e.CommitSimulate? && e.token == token
  }

  lemma LookupFindsBound(engine: Engine, sys: System, p: Pending, id: nat, key: string)
    ensures Bound(sys, id, key) && p.SimulateRead? && p.key == key ==> Lookup(engine, sys.db, p).Err?
  {
    if Bound(sys, id, key) && p.SimulateRead? && p.key == key && p.id != id {
      assert KeyTaken(sys.db.rows, p.id, key);
    }
  }

  /** While a key is bound, no further request gets ready to commit it. */
  lemma NoneGetsReady(engine: Engine, sys: System, e: Event, id: nat, key: string, token: nat)
    requires Allowed(sys, e) && Bound(sys, id, key) && ReadyWith(Step(engine, sys, e).0, token, key)
    ensures ReadyWith(sys, token, key) && !EndsSimulation(e, token)
    ensures Step(engine, sys, e).0.pending[token] == sys.pending[token]
  {
    if e.LookupKey? && e.token in sys.pending {
      LookupFindsBound(engine, sys, sys.pending[e.token], id, key);
    }
  }

  /** A request that is ready to commit stays so until it does. */
  lemma StaysReady(engine: Engine, sys: System, e: Event, token: nat, key: string)
    requires Allowed(sys, e) && ReadyWith(sys, token, key) && !EndsSimulation(e, token)
    ensures var after := Step(engine, sys, e).0;
      ReadyWith(after, token, key) && after.pending[token] == sys.pending[token]
  {
  }

  ghost predicate NotEnded(events: seq<Event>, n: nat, m: nat, token: nat)
    requires n <= m <= |events|
  {
    forall i :: n <= i < m ==> !EndsSimulation(events[i], token)
  }

  /** Whoever is ready to commit a bound key was so already when it was bound. */
  lemma {:induction false} ReadySinceBinding(
    engine: Engine, states: seq<System>, events: seq<Event>, n: nat, m: nat, id: nat, key: string, token: nat)
    requires IsRun(engine, states, events) && BoundFrom(engine, states, events, n, m, id, key)
    ensures ReadyWith(states[m], token, key) <==> ReadyWith(states[n], token, key) && NotEnded(events, n, m, token)
    ensures ReadyWith(states[m], token, key) ==> states[m].pending[token] == states[n].pending[token]
    decreases m
  {
    if n < m {
      var i := m - 1;
      ReadySinceBinding(engine, states, events, n, i, id, key, token);
      BindingPersistsOverRun(engine, states, events, n, i, id, key);
      assert StepsTo(engine, states[i], events[i], states[i + 1]);
      if ReadyWith(states[m], token, key) {
        NoneGetsReady(engine, states[i], events[i], id, key, token);
      } else if ReadyWith(states[i], token, key) && !EndsSimulation(events[i], token) {
        StaysReady(engine, states[i], events[i], token, key);
      }
    }
  }

  /** What committing a bound key does: for another scenario nothing; for its own, if that is a draft again, it
      restores the simulated state with the results that are stored already. */
  lemma CommitWhileBound(engine: Engine, sys: System, id: nat, key: string, token: nat, works: bool)
    requires Inv(engine, sys) && Bound(sys, id, key) && ReadyWith(sys, token, key)
    ensures var row, r := sys.db.rows[id], Step(engine, sys, CommitSimulate(token, works));
      && (r.1 == Committed <==> sys.pending[token].id == id && row.state == Draft && works)
      && (r.1 == Committed ==> r.0.db.rows == sys.db.rows[id := row.(state := Simulated)])
      && (r.1 != Committed ==>
            r.0.db == sys.db && r.1 in {Refused(ChangedConcurrently), Refused(DuplicateIndex), Refused(AuditFailed)})
  {
    var p := sys.pending[token];
    assert PendingOk(engine, sys.db.rows, p) && RowOk(engine, sys.db.rows[id]);
    if p.id == id {
      assert !KeyTaken(sys.db.rows, id, key);
    } else {
      assert KeyTaken(sys.db.rows, p.id, key);
    }
  }

  /** When one key simulates twice, exactly. While `key` is bound to `id`, a request with that key commits another
      simulation if and only if it is one for `id` that was ready to commit when the key was bound and has not ended
      since, the scenario is a draft again, and the audit record can be written. It then changes nothing but the
      state of the scenario; any other request with the key changes no row and no record. */
  lemma SecondSimulationExactly(
    engine: Engine, states: seq<System>, events: seq<Event>, n: nat, m: nat, id: nat, key: string, token: nat,
    works: bool)
    requires engine.Coherent() && IsRun(engine, states, events) && Inv(engine, states[0])
    requires m < |events| && BoundFrom(engine, states, events, n, m, id, key)
    requires events[m] == CommitSimulate(token, works)
    ensures Bound(states[m], id, key)
    ensures var row, answer := states[m].db.rows[id], Step(engine, states[m], events[m]).1;
      && (ReadyWith(states[m], token, key) && answer == Committed <==>
            && ReadyWith(states[n], token, key) && states[n].pending[token].id == id && NotEnded(events, n, m, token)
            && row.state == Draft && works)
      && (ReadyWith(states[m], token, key) ==>
            if answer == Committed then states[m + 1].db.rows == states[m].db.rows[id := row.(state := Simulated)]
            else states[m + 1].db == states[m].db)
  {
    BindingPersistsOverRun(engine, states, events, n, m, id, key);
    RunKeepsInv(engine, states, events, m);
    ReadySinceBinding(engine, states, events, n, m, id, key, token);
    assert StepsTo(engine, states[m], events[m], states[m + 1]);
    if ReadyWith(states[m], token, key) {
      CommitWhileBound(engine, states[m], id, key, token, works);
    }
  }
}
