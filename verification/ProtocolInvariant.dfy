/** What every interleaving of requests keeps. */
module ProtocolInvariant {
  import opened Wrappers
  import opened Protocol

  /** The columns that no request ever changes. */
  ghost predicate SameFrozen(a: Row, b: Row) {
    && a.input == b.input && a.inputHash == b.inputHash && a.version == b.version
    && a.simulationTime == b.simulationTime && a.createdBy == b.createdBy
  }

  /** The frozen input can be simulated, and the hash is that of the frozen text. */
  ghost predicate InputOk(engine: Engine, row: Row) {
    engine.run(row.input).Ok? && row.inputHash == engine.hash(row.input)
  }

  /** The stored results are those of the frozen input. */
  ghost predicate ResultsOk(engine: Engine, row: Row) {
    engine.run(row.input) == Ok(row.results)
  }

  /** A row has a key exactly from its first simulation on; from then on its results are those of its input, and
      until then it has none. A rollback record is only ever written on entering rollback. */
  ghost predicate RowOk(engine: Engine, row: Row) {
    && InputOk(engine, row)
    && (row.state != Draft ==> row.key != "")
    && (if row.key == "" then row.results == NO_RESULTS else ResultsOk(engine, row))
    && (row.state != Rollback ==> row.rollbackRecord == "")
    && (row.replayVerified ==> row.key != "")
    && (row.verifiedBy.Some? <==> row.state == Verified)
    && row.verifiedBy != Some(row.createdBy)
  }

  ghost predicate RowsOk(engine: Engine, rows: map<nat, Row>) {
    forall id :: id in rows ==> RowOk(engine, rows[id])
  }

  /** The two unique indexes of the table: the idempotency key, and the frozen input. */
  ghost predicate KeysUnique(rows: map<nat, Row>) {
    forall a, b :: a in rows && b in rows && rows[a].key == rows[b].key ==> a == b
  }

  ghost predicate SameInput(a: Row, b: Row) {
    a.inputHash == b.inputHash && a.version == b.version && a.simulationTime == b.simulationTime
  }

  ghost predicate InputsUnique(rows: map<nat, Row>) {
    forall a, b :: a in rows && b in rows && SameInput(rows[a], rows[b]) ==> a == b
  }

  predicate Terminal(s: ScenarioState) {
    s == Verified || s == Rollback
  }

  /** The two rows differ at most in the mark that a replay sets. */
  ghost predicate SameButReplay(a: Row, b: Row) {
    a.(replayVerified := b.replayVerified) == b
  }

  /** What a request in progress may rely on: the row it read still exists with the same frozen columns, and is still
      the same row if it was terminal. */
  ghost predicate PendingOk(engine: Engine, rows: map<nat, Row>, p: Pending) {
    && p.id in rows && SameFrozen(p.seen, rows[p.id]) && RowOk(engine, p.seen)
    && (p.seen.key != "" ==> rows[p.id].key != "")
    && (Terminal(p.seen.state) ==> SameButReplay(p.seen, rows[p.id]))
    && match p
       case SimulateRead(_, key, _, _) => key != ""
       case SimulateReady(_, key, _, seen, results) =>
         key != "" && seen.state == Draft && engine.run(seen.input) == Ok(results)
       case TransitionReady(_, to, _, actor, seen) =>
         to != Simulated && CanTransition(seen.state, to) && (to == Verified ==> actor.userId != seen.createdBy)
       case ReplayReady(_, _, seen, passed) => seen.state != Draft && passed
  }

  ghost predicate AllPendingOk(engine: Engine, sys: System) {
    forall t :: t in sys.pending ==> PendingOk(engine, sys.db.rows, sys.pending[t])
  }

  ghost predicate TableOk(engine: Engine, rows: map<nat, Row>) {
    RowsOk(engine, rows) && KeysUnique(rows) && InputsUnique(rows)
  }

  ghost predicate Inv(engine: Engine, sys: System) {
    TableOk(engine, sys.db.rows) && AllPendingOk(engine, sys)
  }

  // ---------- single steps ----------

  /** No row disappears, no frozen column changes, a row that has a key keeps having one, and a terminal row
      changes at most in its replay mark. */
  ghost predicate RowsPersist(before: map<nat, Row>, after: map<nat, Row>) {
    forall id :: id in before ==>
      && id in after && SameFrozen(before[id], after[id]) && (before[id].key != "" ==> after[id].key != "")
      && (Terminal(before[id].state) ==> SameButReplay(before[id], after[id]))
  }

  lemma PendingSurvives(engine: Engine, before: map<nat, Row>, after: map<nat, Row>, p: Pending)
    requires RowsPersist(before, after) && PendingOk(engine, before, p)
    ensures PendingOk(engine, after, p)
  {
  }

  /** A change of one row that keeps its frozen columns keeps the table in order. */
  lemma OneRowChange(engine: Engine, rows: map<nat, Row>, id: nat, row: Row)
    requires TableOk(engine, rows) && id in rows
    requires SameFrozen(rows[id], row) && RowOk(engine, row)
    requires row.key == rows[id].key || (row.key != "" && !KeyTaken(rows, id, row.key))
    requires Terminal(rows[id].state) ==> SameButReplay(rows[id], row)
    ensures var after := rows[id := row];
      TableOk(engine, after) && RowsPersist(rows, after)
  {
    var after := rows[id := row];
    assert KeysUnique(after);
    assert InputsUnique(after);
  }

  lemma CreateKeeps(engine: Engine, sys: System, e: Event)
    requires engine.Coherent() && Inv(engine, sys) && e.Create? && Allowed(sys, e)
    ensures var rows, after := sys.db.rows, CommitCreate(engine, sys.db, e).0.rows;
      TableOk(engine, after) && RowsPersist(rows, after)
  {
    var rows, row := sys.db.rows, DraftOf(engine, e.snapshot, e.actor);
    if engine.accepts(e.snapshot) && !KeyTaken(rows, e.newId, "") && !InputTaken(rows, row) {
      var after := rows[e.newId := row];
      assert RowsOk(engine, after);
      assert KeysUnique(after);
      assert InputsUnique(after);
    }
  }

  lemma SimulationKeeps(engine: Engine, sys: System, p: Pending, auditWorks: bool)
    requires Inv(engine, sys) && p.SimulateReady? && PendingOk(engine, sys.db.rows, p)
    ensures var rows, after := sys.db.rows, CommitSimulation(sys.db, p, auditWorks).0.rows;
      TableOk(engine, after) && RowsPersist(rows, after)
  {
    var rows := sys.db.rows;
    var row := rows[p.id].(state := Simulated, results := p.results, key := p.key);
    if rows[p.id].state == Draft && !KeyTaken(rows, p.id, p.key) {
      OneRowChange(engine, rows, p.id, row);
    }
  }

  lemma MoveKeeps(engine: Engine, sys: System, p: Pending, auditWorks: bool)
    requires Inv(engine, sys) && p.TransitionReady? && PendingOk(engine, sys.db.rows, p)
    ensures var rows, after := sys.db.rows, CommitMove(sys.db, p, auditWorks).0.rows;
      TableOk(engine, after) && RowsPersist(rows, after)
  {
    var rows := sys.db.rows;
    var row := WithTransition(rows[p.id], p.to, p.comment, p.actor);
    if rows[p.id].state == p.seen.state {
      OneRowChange(engine, rows, p.id, row);
    }
  }

  lemma ReplayKeeps(engine: Engine, sys: System, p: Pending, auditWorks: bool)
    requires Inv(engine, sys) && p.ReplayReady? && PendingOk(engine, sys.db.rows, p)
    ensures var rows, after := sys.db.rows, CommitReplayed(sys.db, p, auditWorks).0.rows;
      TableOk(engine, after) && RowsPersist(rows, after)
  {
    var rows := sys.db.rows;
    var row := rows[p.id].(replayVerified := p.passed);
    OneRowChange(engine, rows, p.id, row);
  }

  /** A step that ends the request `token`, or none, and leaves the table in order keeps the invariant. */
  lemma EndingKeeps(engine: Engine, sys: System, db: Database, ended: set<nat>)
    requires Inv(engine, sys) && TableOk(engine, db.rows) && RowsPersist(sys.db.rows, db.rows)
    ensures Inv(engine, System(db, sys.pending - ended))
  {
    var after := System(db, sys.pending - ended);
    forall t | t in after.pending ensures PendingOk(engine, db.rows, after.pending[t]) {
      PendingSurvives(engine, sys.db.rows, db.rows, sys.pending[t]);
    }
  }

  /** A step that only moves the request `token` on keeps the invariant. */
  lemma ProceedingKeeps(engine: Engine, sys: System, token: nat, p: Pending)
    requires Inv(engine, sys) && PendingOk(engine, sys.db.rows, p)
    ensures Inv(engine, sys.(pending := sys.pending[token := p]))
  {
  }

  lemma ReadKeeps(engine: Engine, sys: System, token: nat, r: Result<Pending, Refusal>)
    requires Inv(engine, sys) && (r.Ok? ==> PendingOk(engine, sys.db.rows, r.value))
    ensures Inv(engine, Began(sys, token, r).0)
  {
    if r.Ok? {
      ProceedingKeeps(engine, sys, token, r.value);
    }
  }

  lemma ReadForSimulateOk(engine: Engine, sys: System, e: Event)
    requires Inv(engine, sys) && e.BeginSimulate?
    ensures var r := ReadForSimulate(sys.db, e); r.Ok? ==> PendingOk(engine, sys.db.rows, r.value)
  {
  }

  lemma ReadForTransitionOk(engine: Engine, sys: System, e: Event)
    requires Inv(engine, sys) && e.BeginTransition?
    ensures var r := ReadForTransition(sys.db, e); r.Ok? ==> PendingOk(engine, sys.db.rows, r.value)
  {
  }

  lemma ReplayPasses(engine: Engine, sys: System, e: Event)
    requires Inv(engine, sys) && e.BeginReplay?
    ensures var r := ReadForReplay(engine, sys.db, e);
      && (r.Ok? ==> PendingOk(engine, sys.db.rows, r.value))
      && (r.Err? ==> r.error in {NotFound, Forbidden, NothingToReplay})
  {
    if e.id in sys.db.rows {
      assert RowOk(engine, sys.db.rows[e.id]);
    }
  }

  lemma LookupSucceeds(engine: Engine, sys: System, p: Pending)
    requires Inv(engine, sys) && p.SimulateRead? && PendingOk(engine, sys.db.rows, p)
    ensures var r := Lookup(engine, sys.db, p);
      && (r.Ok? ==> PendingOk(engine, sys.db.rows, r.value))
      && (r.Err? ==> r.error.Reused? || r.error in {Refused(KeyBoundElsewhere), Refused(NotDraft)})
  {
  }

  lemma LookupKeeps(engine: Engine, sys: System, token: nat)
    requires Inv(engine, sys)
    ensures Inv(engine, Step(engine, sys, LookupKey(token)).0)
  {
    if token in sys.pending && sys.pending[token].SimulateRead? {
      LookupSucceeds(engine, sys, sys.pending[token]);
      var r := Lookup(engine, sys.db, sys.pending[token]);
      if r.Ok? {
        ProceedingKeeps(engine, sys, token, r.value);
      } else {
        EndingKeeps(engine, sys, sys.db, {token});
      }
    }
  }

  lemma CommitKeeps(engine: Engine, sys: System, e: Event)
    requires Inv(engine, sys) && (e.CommitSimulate? || e.CommitTransition? || e.CommitReplay?)
    ensures Inv(engine, Step(engine, sys, e).0) && RowsPersist(sys.db.rows, Step(engine, sys, e).0.db.rows)
  {
    if e.token in sys.pending {
      var p := sys.pending[e.token];
      if e.CommitSimulate? && p.SimulateReady? {
        SimulationKeeps(engine, sys, p, e.auditWorks);
        EndingKeeps(engine, sys, CommitSimulation(sys.db, p, e.auditWorks).0, {e.token});
      } else if e.CommitTransition? && p.TransitionReady? {
        MoveKeeps(engine, sys, p, e.auditWorks);
        EndingKeeps(engine, sys, CommitMove(sys.db, p, e.auditWorks).0, {e.token});
      } else if e.CommitReplay? && p.ReplayReady? {
        ReplayKeeps(engine, sys, p, e.auditWorks);
        EndingKeeps(engine, sys, CommitReplayed(sys.db, p, e.auditWorks).0, {e.token});
      }
    }
  }

  lemma CreateStepKeeps(engine: Engine, sys: System, e: Event)
    requires engine.Coherent() && Inv(engine, sys) && e.Create? && Allowed(sys, e)
    ensures Inv(engine, Step(engine, sys, e).0)
  {
    CreateKeeps(engine, sys, e);
    EndingKeeps(engine, sys, CommitCreate(engine, sys.db, e).0, {});
    assert sys.pending - {} == sys.pending;
  }

  lemma ReadStepKeeps(engine: Engine, sys: System, e: Event)
    requires Inv(engine, sys) && (e.BeginSimulate? || e.BeginTransition? || e.BeginReplay?)
    ensures Inv(engine, Step(engine, sys, e).0)
  {
    if e.BeginSimulate? {
      ReadForSimulateOk(engine, sys, e);
      ReadKeeps(engine, sys, e.token, ReadForSimulate(sys.db, e));
    } else if e.BeginTransition? {
      ReadForTransitionOk(engine, sys, e);
      ReadKeeps(engine, sys, e.token, ReadForTransition(sys.db, e));
    } else {
      ReplayPasses(engine, sys, e);
      ReadKeeps(engine, sys, e.token, ReadForReplay(engine, sys.db, e));
    }
  }

  lemma ReadsWriteNothing(engine: Engine, sys: System, e: Event)
    requires e.LookupKey? || e.BeginSimulate? || e.BeginTransition? || e.BeginReplay?
    ensures Step(engine, sys, e).0.db == sys.db
  {
  }

  /** Every step of every request keeps the invariant and the frozen columns. */
  lemma StepKeepsInv(engine: Engine, sys: System, e: Event)
    requires engine.Coherent() && Inv(engine, sys) && Allowed(sys, e)
    ensures Inv(engine, Step(engine, sys, e).0)
    ensures RowsPersist(sys.db.rows, Step(engine, sys, e).0.db.rows)
  {
    if e.Create? {
      CreateKeeps(engine, sys, e);
      CreateStepKeeps(engine, sys, e);
    } else if e.CommitSimulate? || e.CommitTransition? || e.CommitReplay? {
      CommitKeeps(engine, sys, e);
    } else {
      ReadsWriteNothing(engine, sys, e);
      if e.LookupKey? {
        LookupKeeps(engine, sys, e.token);
      } else {
        ReadStepKeeps(engine, sys, e);
      }
    }
  }

  /** The invariant holds in every state of every run; no row disappears and no frozen column ever changes. */
  lemma {:induction false} RunKeepsInv(engine: Engine, states: seq<System>, events: seq<Event>, n: nat)
    requires engine.Coherent() && IsRun(engine, states, events) && Inv(engine, states[0]) && n < |states|
    ensures Inv(engine, states[n]) && RowsPersist(states[0].db.rows, states[n].db.rows)
  {
    if n > 0 {
      RunKeepsInv(engine, states, events, n - 1);
      var i := n - 1;
      assert StepsTo(engine, states[i], events[i], states[i + 1]);
      StepKeepsInv(engine, states[i], events[i]);
    }
  }
}
