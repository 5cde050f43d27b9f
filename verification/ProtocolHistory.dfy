/** Whole-run properties of the scenario protocol. A run starts in any state that satisfies the invariant, such as the
    empty database or the seeded one. */
module ProtocolHistory {
  import opened Wrappers
  import opened Protocol
  import opened ProtocolInvariant

  // ---------- replay ----------

  /** Replay never disagrees with history: in every state of every run, a row that has left draft stores exactly the
      results of its frozen input, a verified replay is never stale, and any replay in progress is going to pass. */
  lemma ReplayAgreesWithHistory(engine: Engine, states: seq<System>, events: seq<Event>, n: nat)
    requires engine.Coherent() && IsRun(engine, states, events) && Inv(engine, states[0]) && n < |states|
    ensures var sys := states[n];
      && (forall id :: id in sys.db.rows && (sys.db.rows[id].state != Draft || sys.db.rows[id].replayVerified) ==>
            engine.run(sys.db.rows[id].input) == Ok(sys.db.rows[id].results))
      && forall t, works :: t in sys.pending && sys.pending[t].ReplayReady? ==>
            CommitReplayed(sys.db, sys.pending[t], works).1 == if works then Committed else Refused(AuditFailed)
  {
    RunKeepsInv(engine, states, events, n);
    var sys := states[n];
    forall id | id in sys.db.rows && (sys.db.rows[id].state != Draft || sys.db.rows[id].replayVerified)
      ensures engine.run(sys.db.rows[id].input) == Ok(sys.db.rows[id].results)
    {
      assert RowOk(engine, sys.db.rows[id]);
    }
    forall t, works | t in sys.pending && sys.pending[t].ReplayReady?
      ensures CommitReplayed(sys.db, sys.pending[t], works).1 == if works then Committed else Refused(AuditFailed)
    {
      assert PendingOk(engine, sys.db.rows, sys.pending[t]);
    }
  }

  /** The check made when a scenario is created suffices: no later simulation or replay of it ends in a
      decoding, validation or replay error. */
  lemma NoSimulationErrors(engine: Engine, states: seq<System>, events: seq<Event>, n: nat)
    requires engine.Coherent() && IsRun(engine, states, events) && Inv(engine, states[0]) && n < |events|
    ensures Step(engine, states[n], events[n]).1 !in
            {Refused(SnapshotUndecodable), Refused(SimulationFailed), Refused(ReplayDiffers)}
  {
    RunKeepsInv(engine, states, events, n);
    var sys, e := states[n], events[n];
    assert StepsTo(engine, sys, e, states[n + 1]);
    match e
    case LookupKey(token) =>
      if token in sys.pending && sys.pending[token].SimulateRead? {
        LookupSucceeds(engine, sys, sys.pending[token]);
      }
    case BeginReplay(_, _, _) =>
      ReplayPasses(engine, sys, e);
    case CommitReplay(token, _) =>
      if token in sys.pending {
        assert PendingOk(engine, sys.db.rows, sys.pending[token]);
      }
    case _ =>
      OtherAnswers(engine, sys, e);
  }

  /** Only a key lookup and the two steps of a replay involve the simulator. */
  lemma OtherAnswers(engine: Engine, sys: System, e: Event)
    requires !e.LookupKey? && !e.BeginReplay? && !e.CommitReplay?
    ensures Step(engine, sys, e).1 !in {Refused(SnapshotUndecodable), Refused(SimulationFailed), Refused(ReplayDiffers)}
  {
  }

  // ---------- states, reviewers, frozen columns ----------

  ghost predicate LegalMoves(before: map<nat, Row>, after: map<nat, Row>) {
    forall id :: id in before ==>
      id in after && (after[id].state == before[id].state || CanTransition(before[id].state, after[id].state))
  }

  lemma TransitionMovesLegally(db: Database, p: Pending, works: bool)
    requires p.TransitionReady? && CanTransition(p.seen.state, p.to)
    ensures LegalMoves(db.rows, CommitMove(db, p, works).0.rows)
  {
  }

  lemma SimulationMovesLegally(db: Database, p: Pending, works: bool)
    requires p.SimulateReady?
    ensures LegalMoves(db.rows, CommitSimulation(db, p, works).0.rows)
  {
  }

  lemma ReplayMovesNothing(db: Database, p: Pending, works: bool)
    requires p.ReplayReady?
    ensures LegalMoves(db.rows, CommitReplayed(db, p, works).0.rows)
  {
  }

  lemma CommitMovesLegally(engine: Engine, sys: System, e: Event)
    requires Inv(engine, sys) && (e.CommitSimulate? || e.CommitTransition? || e.CommitReplay?)
    ensures LegalMoves(sys.db.rows, Step(engine, sys, e).0.db.rows)
  {
    if e.token in sys.pending {
      var p := sys.pending[e.token];
      if e.CommitSimulate? && p.SimulateReady? {
        SimulationMovesLegally(sys.db, p, e.auditWorks);
      } else if e.CommitTransition? && p.TransitionReady? {
        assert PendingOk(engine, sys.db.rows, p);
        TransitionMovesLegally(sys.db, p, e.auditWorks);
      } else if e.CommitReplay? && p.ReplayReady? {
        ReplayMovesNothing(sys.db, p, e.auditWorks);
      }
    }
  }

  /** A step moves the state of a scenario along a legal transition, or not at all. */
  lemma StateMovesLegally(engine: Engine, sys: System, e: Event)
    requires Inv(engine, sys) && Allowed(sys, e)
    ensures LegalMoves(sys.db.rows, Step(engine, sys, e).0.db.rows)
  {
    if e.CommitSimulate? || e.CommitTransition? || e.CommitReplay? {
      CommitMovesLegally(engine, sys, e);
    } else if !e.Create? {
      ReadsWriteNothing(engine, sys, e);
    }
  }

  /** One step of a run: legal moves, and frozen columns as they were. */
  lemma RunStep(engine: Engine, states: seq<System>, events: seq<Event>, i: nat)
    requires engine.Coherent() && IsRun(engine, states, events) && Inv(engine, states[0]) && i < |events|
    ensures LegalMoves(states[i].db.rows, states[i + 1].db.rows)
            && RowsPersist(states[i].db.rows, states[i + 1].db.rows)
  {
    RunKeepsInv(engine, states, events, i);
    assert StepsTo(engine, states[i], events[i], states[i + 1]);
    StateMovesLegally(engine, states[i], events[i]);
    StepKeepsInv(engine, states[i], events[i]);
  }

  lemma {:induction false} RunPersists(engine: Engine, states: seq<System>, events: seq<Event>, n: nat, m: nat)
    requires engine.Coherent() && IsRun(engine, states, events) && Inv(engine, states[0]) && n <= m < |states|
    ensures RowsPersist(states[n].db.rows, states[m].db.rows)
    decreases m
  {
    if n < m {
      RunPersists(engine, states, events, n, m - 1);
      RunStep(engine, states, events, m - 1);
    }
  }

  /** Frozen input, hash and creator never change, and verified and rollback are terminal: nothing about such a row
      changes any more but the mark that a replay sets. */
  lemma TerminalAndFrozen(engine: Engine, states: seq<System>, events: seq<Event>, n: nat, m: nat, id: nat)
    requires engine.Coherent() && IsRun(engine, states, events) && Inv(engine, states[0]) && n <= m < |states|
    requires id in states[n].db.rows
    ensures id in states[m].db.rows && SameFrozen(states[n].db.rows[id], states[m].db.rows[id])
    ensures Terminal(states[n].db.rows[id].state) ==> SameButReplay(states[n].db.rows[id], states[m].db.rows[id])
  {
    RunPersists(engine, states, events, n, m);
  }

  /** Two-person verification, and what a state says about its row, in every state of every run. */
  lemma ReviewersAreSeparated(engine: Engine, states: seq<System>, events: seq<Event>, n: nat, id: nat)
    requires engine.Coherent() && IsRun(engine, states, events) && Inv(engine, states[0]) && n < |states|
    requires id in states[n].db.rows
    ensures var row := states[n].db.rows[id];
      && (row.verifiedBy.Some? <==> row.state == Verified)
      && (row.verifiedBy.Some? ==> row.verifiedBy.value != row.createdBy)
      && (row.state != Draft ==> row.key != "" && engine.run(row.input) == Ok(row.results))
  {
    RunKeepsInv(engine, states, events, n);
    assert RowOk(engine, states[n].db.rows[id]);
  }

  // ---------- creation and the two unique indexes ----------

  /** Creating a scenario from an accepted snapshot is refused as "identical" exactly when a scenario with the same
      frozen input exists, or any scenario at all has never been simulated. */
  lemma CreateRefusedExactly(engine: Engine, sys: System, e: Event)
    requires Inv(engine, sys) && e.Create? && Allowed(sys, e) && engine.accepts(e.snapshot)
    ensures Step(engine, sys, e).1 == Refused(DuplicateIndex) <==>
            || (exists id :: id in sys.db.rows && SameInput(sys.db.rows[id], DraftOf(engine, e.snapshot, e.actor)))
            || (exists id :: id in sys.db.rows && sys.db.rows[id].key == "")
  {
    var row := DraftOf(engine, e.snapshot, e.actor);
    assert InputTaken(sys.db.rows, row) <==> exists id :: id in sys.db.rows && SameInput(sys.db.rows[id], row);
  }

  /** In every state of every run at most one scenario has never been simulated. */
  lemma OneNeverSimulated(engine: Engine, states: seq<System>, events: seq<Event>, n: nat, a: nat, b: nat)
    requires engine.Coherent() && IsRun(engine, states, events) && Inv(engine, states[0]) && n < |states|
    requires a in states[n].db.rows && b in states[n].db.rows
    requires states[n].db.rows[a].key == "" && states[n].db.rows[b].key == ""
    ensures a == b
  {
    RunKeepsInv(engine, states, events, n);
  }

  // ---------- where runs start ----------

  /** The scenario that the program seeds an empty database with: simulated under a key of its own. */
  ghost predicate SeededRow(engine: Engine, row: Row) {
    && ResultsOk(engine, row) && row.inputHash == engine.hash(row.input)
    && row.state == Simulated && row.key != "" && row.verifiedBy.None? && row.rollbackRecord == ""
  }

  /** No request is in progress, nothing is in the log, and the table is empty or holds the seeded scenario. */
  ghost predicate Starts(engine: Engine, sys: System) {
    && sys.pending == map[] && sys.db.audit == []
    && (forall id :: id in sys.db.rows ==> SeededRow(engine, sys.db.rows[id]))
    && forall a, b :: a in sys.db.rows && b in sys.db.rows ==> a == b
  }

  function Single(id: nat, row: Row): map<nat, Row> {
    map[id := row]
  }

  lemma StartsSeeded(engine: Engine, id: nat, row: Row)
    requires SeededRow(engine, row)
    ensures Starts(engine, System(Database(Single(id, row), []), map[]))
  {
  }

  lemma StartsSatisfyInv(engine: Engine, sys: System)
    requires Starts(engine, sys)
    ensures Inv(engine, sys)
  {
    forall id | id in sys.db.rows ensures RowOk(engine, sys.db.rows[id]) {
      assert SeededRow(engine, sys.db.rows[id]);
    }
  }
}
