/** The audit log explains the state of every scenario. */
module ProtocolAudit {
  import opened Wrappers
  import opened Protocol
  import opened ProtocolInvariant

  /** The records that create, simulate or move scenario `id`, in log order. */
  ghost function Trail(log: seq<AuditRecord>, id: nat): seq<AuditRecord> {
    if log == [] then []
    else
      var last := log[|log| - 1];
      Trail(log[..|log| - 1], id) + if last.scenario == id && last.action != ReplayAction then [last] else []
  }

  ghost function StateBefore(r: AuditRecord): Option<ScenarioState> {
    if r.before.None? then None else Some(r.before.value.state)
  }

  /** The state a trail leads to from `start`, which is None for a scenario that did not exist. */
  ghost function EndState(trail: seq<AuditRecord>, start: Option<ScenarioState>): Option<ScenarioState> {
    if trail == [] then start else Some(trail[|trail| - 1].after.state)
  }

  ghost predicate LegalRecord(r: AuditRecord) {
    match r.action
    case CreateFrozenDraft => r.before.None? && r.after.state == Draft
    case SimulateAction => StateBefore(r) == Some(Draft) && r.after.state == Simulated
    case TransitionAction => r.before.Some? && CanTransition(r.before.value.state, r.after.state)
      && r.after.state != Simulated
    case ReplayAction => false
  }

  /** Each record is legal and starts in the state the one before it ended in. */
  ghost predicate IsWalk(trail: seq<AuditRecord>, start: Option<ScenarioState>) {
    forall i :: 0 <= i < |trail| ==> LegalRecord(trail[i]) && StateBefore(trail[i]) == EndState(trail[..i], start)
  }

  ghost function Simulations(trail: seq<AuditRecord>): nat {
    if trail == [] then 0
    else Simulations(trail[..|trail| - 1]) + if trail[|trail| - 1].action == SimulateAction then 1 else 0
  }

  ghost function ReturnsToDraft(trail: seq<AuditRecord>): nat {
    if trail == [] then 0
    else
      var last := trail[|trail| - 1];
      ReturnsToDraft(trail[..|trail| - 1])
      + if last.action == TransitionAction && last.after.state == Draft then 1 else 0
  }

  function BeyondDraft(s: Option<ScenarioState>): int {
    if s.Some? && s.value != Draft then 1 else 0
  }

  ghost function StateOf(db: Database, id: nat): Option<ScenarioState> {
    if id in db.rows then Some(db.rows[id].state) else None
  }

  /** Since `start`, the trail of every scenario is a walk that ends in its current state. */
  ghost predicate Explained(start: Database, db: Database) {
    && start.audit <= db.audit
    && forall id :: Explains(Trail(db.audit[|start.audit|..], id), StateOf(start, id), StateOf(db, id))
  }

  /** One audit record was appended, and only the row it is about was written, with the state the record ends in. */
  ghost predicate RecordsOne(db: Database, after: Database, r: AuditRecord) {
    && after.audit == db.audit + [r]
    && r.scenario in after.rows
    && (forall id :: id != r.scenario ==>
       StateOf(after, id) == StateOf(db, id) && (id in db.rows ==> after.rows[id] == db.rows[id]))
    && (r.action == ReplayAction ==> StateOf(after, r.scenario) == StateOf(db, r.scenario))
    && (r.action != ReplayAction ==>
          LegalRecord(r) && StateBefore(r) == StateOf(db, r.scenario)
            && Some(r.after.state) == StateOf(after, r.scenario))
    && SignsFor(db, after, r)
  }

  /** The actor of a creation is the creator of the row, that of a verification its verifier; no other record changes
      either. */
  ghost predicate SignsFor(db: Database, after: Database, r: AuditRecord)
    requires r.scenario in after.rows
  {
    var row := after.rows[r.scenario];
    && (r.action == CreateFrozenDraft ==> row.createdBy == r.actor)
    && (r.action != CreateFrozenDraft ==> r.scenario in db.rows && row.createdBy == db.rows[r.scenario].createdBy)
    && (r.action == ReplayAction ==> r.scenario in db.rows && row.verifiedBy == db.rows[r.scenario].verifiedBy)
    && (r.action == TransitionAction && row.state == Verified ==> row.verifiedBy == Some(r.actor))
  }

  ghost predicate Atomic(db: Database, after: Database) {
    after == db || exists r :: RecordsOne(db, after, r)
  }

  lemma CreateIsAtomic(engine: Engine, db: Database, e: Event)
    requires e.Create? && e.newId !in db.rows
    ensures Atomic(db, CommitCreate(engine, db, e).0)
  {
    var after := CommitCreate(engine, db, e).0;
    if after != db {
      assert RecordsOne(db, after, after.audit[|db.audit|]);
    }
  }

  lemma SimulationIsAtomic(db: Database, p: Pending, works: bool)
    requires p.SimulateReady? && p.seen.state == Draft
    ensures Atomic(db, CommitSimulation(db, p, works).0)
  {
    var after := CommitSimulation(db, p, works).0;
    if after != db {
      assert RecordsOne(db, after, after.audit[|db.audit|]);
    }
  }

  lemma MoveIsAtomic(db: Database, p: Pending, works: bool)
    requires p.TransitionReady? && p.to != Simulated && CanTransition(p.seen.state, p.to)
    ensures Atomic(db, CommitMove(db, p, works).0)
  {
    var after := CommitMove(db, p, works).0;
    if after != db {
      assert RecordsOne(db, after, after.audit[|db.audit|]);
    }
  }

  lemma ReplayIsAtomic(db: Database, p: Pending, works: bool)
    requires p.ReplayReady?
    ensures Atomic(db, CommitReplayed(db, p, works).0)
  {
    var after := CommitReplayed(db, p, works).0;
    if after != db {
      assert RecordsOne(db, after, after.audit[|db.audit|]);
    }
  }

  /** A step writes nothing, or one row together with one audit record. */
  lemma StepIsAtomic(engine: Engine, sys: System, e: Event)
    requires Inv(engine, sys) && Allowed(sys, e)
    ensures Atomic(sys.db, Step(engine, sys, e).0.db)
  {
    match e
    case Create(_, _, _, _) => CreateIsAtomic(engine, sys.db, e);
    case CommitSimulate(token, works) =>
      if token in sys.pending && sys.pending[token].SimulateReady? {
        assert PendingOk(engine, sys.db.rows, sys.pending[token]);
        SimulationIsAtomic(sys.db, sys.pending[token], works);
      }
    case CommitTransition(token, works) =>
      if token in sys.pending && sys.pending[token].TransitionReady? {
        assert PendingOk(engine, sys.db.rows, sys.pending[token]);
        MoveIsAtomic(sys.db, sys.pending[token], works);
      }
    case CommitReplay(token, works) =>
      if token in sys.pending && sys.pending[token].ReplayReady? {
        ReplayIsAtomic(sys.db, sys.pending[token], works);
      }
    case _ =>
  }

  lemma WalkExtends(trail: seq<AuditRecord>, start: Option<ScenarioState>, r: AuditRecord)
    requires IsWalk(trail, start) && LegalRecord(r) && StateBefore(r) == EndState(trail, start)
    ensures IsWalk(trail + [r], start) && EndState(trail + [r], start) == Some(r.after.state)
  {
    var longer := trail + [r];
    assert forall i :: 0 <= i <= |trail| ==> longer[..i] == trail[..i];
    assert trail[..|trail|] == trail;
  }

  ghost predicate Explains(trail: seq<AuditRecord>, start: Option<ScenarioState>, end: Option<ScenarioState>) {
    IsWalk(trail, start) && EndState(trail, start) == end
  }

  lemma TrailOfLonger(log: seq<AuditRecord>, r: AuditRecord, id: nat)
    ensures Trail(log + [r], id) == Trail(log, id) + if r.scenario == id && r.action != ReplayAction then [r] else []
  {
    assert (log + [r])[..|log|] == log;
  }

  /** One more record explains one more change of state. */
  lemma ExplainsNext(log: seq<AuditRecord>, r: AuditRecord, id: nat, start: Option<ScenarioState>,
                     before: Option<ScenarioState>, after: Option<ScenarioState>)
    requires Explains(Trail(log, id), start, before)
    requires r.scenario != id || r.action == ReplayAction ==> after == before
    requires r.scenario == id && r.action != ReplayAction ==>
      LegalRecord(r) && StateBefore(r) == before && Some(r.after.state) == after
    ensures Explains(Trail(log + [r], id), start, after)
  {
    TrailOfLonger(log, r, id);
    if r.scenario == id && r.action != ReplayAction {
      WalkExtends(Trail(log, id), start, r);
    } else {
      assert Trail(log, id) + [] == Trail(log, id);
    }
  }

  lemma RecordKeepsExplained(start: Database, db: Database, after: Database, r: AuditRecord)
    requires Explained(start, db) && RecordsOne(db, after, r)
    ensures Explained(start, after)
  {
    var since := db.audit[|start.audit|..];
    assert after.audit[|start.audit|..] == since + [r];
    forall id ensures Explains(Trail(since + [r], id), StateOf(start, id), StateOf(after, id)) {
      ExplainsNext(since, r, id, StateOf(start, id), StateOf(db, id), StateOf(after, id));
    }
  }

  lemma StepKeepsExplained(engine: Engine, start: Database, sys: System, e: Event)
    requires Inv(engine, sys) && Allowed(sys, e) && Explained(start, sys.db)
    ensures Explained(start, Step(engine, sys, e).0.db)
  {
    var after := Step(engine, sys, e).0.db;
    StepIsAtomic(engine, sys, e);
    if after != sys.db {
      var r :| RecordsOne(sys.db, after, r);
      RecordKeepsExplained(start, sys.db, after, r);
    }
  }

  lemma {:induction false} RunIsExplained(engine: Engine, states: seq<System>, events: seq<Event>, n: nat)
    requires engine.Coherent() && IsRun(engine, states, events) && Inv(engine, states[0]) && n < |states|
    ensures Explained(states[0].db, states[n].db)
  {
    if n == 0 {
      var db := states[0].db;
      assert db.audit[|db.audit|..] == [];
    } else {
      RunIsExplained(engine, states, events, n - 1);
      RunKeepsInv(engine, states, events, n - 1);
      var i := n - 1;
      assert StepsTo(engine, states[i], events[i], states[i + 1]);
      StepKeepsExplained(engine, states[0].db, states[i], events[i]);
    }
  }

  lemma {:induction false} WalkCounts(trail: seq<AuditRecord>, start: Option<ScenarioState>)
    requires IsWalk(trail, start)
    ensures Simulations(trail) - ReturnsToDraft(trail) == BeyondDraft(EndState(trail, start)) - BeyondDraft(start)
  {
    if trail != [] {
      var front := trail[..|trail| - 1];
      assert forall i :: 0 <= i < |front| ==> front[..i] == trail[..i] && front[i] == trail[i];
      WalkCounts(front, start);
      assert LegalRecord(trail[|trail| - 1]);
    }
  }

  /** A trail that begins with the creation of its scenario: each record starts in the state the one before it ended
      in, the last ends in `state`, and it simulates once more often than it returns to draft, unless it
      ends in draft, and then equally often. */
  ghost predicate LifeOf(trail: seq<AuditRecord>, state: ScenarioState) {
    && |trail| > 0 && trail[0].action == CreateFrozenDraft && trail[0].after.state == Draft
    && (forall i :: 0 < i < |trail| ==>
          LegalRecord(trail[i]) && trail[i].action != CreateFrozenDraft
            && StateBefore(trail[i]) == Some(trail[i - 1].after.state))
    && trail[|trail| - 1].after.state == state
    && Simulations(trail) == ReturnsToDraft(trail) + if state == Draft then 0 else 1
  }

  lemma WalkFromNothingIsLife(trail: seq<AuditRecord>, state: ScenarioState)
    requires Explains(trail, None, Some(state))
    ensures LifeOf(trail, state)
  {
    WalkCounts(trail, None);
    assert LegalRecord(trail[0]) && StateBefore(trail[0]) == EndState(trail[..0], None);
    forall i | 0 < i < |trail|
      ensures LegalRecord(trail[i]) && trail[i].action != CreateFrozenDraft
              && StateBefore(trail[i]) == Some(trail[i - 1].after.state)
    {
      assert trail[..i][|trail[..i]| - 1] == trail[i - 1];
    }
  }

  /** The log explains the state under any interleaving: the create, simulate and transition records of a scenario
      created during the run tell its whole life, and end in its current state. */
  lemma AuditExplainsState(engine: Engine, states: seq<System>, events: seq<Event>, n: nat, id: nat)
    requires engine.Coherent() && IsRun(engine, states, events) && Inv(engine, states[0]) && n < |states|
    requires id in states[n].db.rows && id !in states[0].db.rows
    ensures |states[0].db.audit| <= |states[n].db.audit|
    ensures LifeOf(Trail(states[n].db.audit[|states[0].db.audit|..], id), states[n].db.rows[id].state)
  {
    RunIsExplained(engine, states, events, n);
    WalkFromNothingIsLife(Trail(states[n].db.audit[|states[0].db.audit|..], id), states[n].db.rows[id].state);
  }

  /** For a scenario that was there at the start, as the seeded one is, the records since then lead from its state
      then to its state now, and simulations and returns to draft balance accordingly. */
  lemma AuditExplainsSeeded(engine: Engine, states: seq<System>, events: seq<Event>, n: nat, id: nat)
    requires engine.Coherent() && IsRun(engine, states, events) && Inv(engine, states[0]) && n < |states|
    requires id in states[0].db.rows && id in states[n].db.rows
    ensures |states[0].db.audit| <= |states[n].db.audit|
    ensures var trail := Trail(states[n].db.audit[|states[0].db.audit|..], id);
      var first, now := states[0].db.rows[id].state, states[n].db.rows[id].state;
      && IsWalk(trail, Some(first)) && EndState(trail, Some(first)) == Some(now)
      && Simulations(trail) + BeyondDraft(Some(first)) == ReturnsToDraft(trail) + BeyondDraft(Some(now))
  {
    RunIsExplained(engine, states, events, n);
    var trail := Trail(states[n].db.audit[|states[0].db.audit|..], id);
    assert Explains(trail, StateOf(states[0].db, id), StateOf(states[n].db, id));
    WalkCounts(trail, Some(states[0].db.rows[id].state));
  }

  // ---------- who signed ----------

  /** The trail begins with the creator's signature, and that of a verified row ends with the verifier's. */
  ghost predicate Signed(trail: seq<AuditRecord>, row: Row) {
    trail != [] ==>
      && (trail[0].action == CreateFrozenDraft ==> trail[0].actor == row.createdBy)
      && (row.state == Verified ==> row.verifiedBy == Some(trail[|trail| - 1].actor))
  }

  ghost predicate AllSigned(start: Database, db: Database) {
    start.audit <= db.audit && forall id :: id in db.rows ==> Signed(Trail(db.audit[|start.audit|..], id), db.rows[id])
  }

  lemma RecordKeepsSigned(start: Database, db: Database, after: Database, r: AuditRecord)
    requires Explained(start, db) && AllSigned(start, db) && RecordsOne(db, after, r)
    ensures AllSigned(start, after)
  {
    var since := db.audit[|start.audit|..];
    assert after.audit[|start.audit|..] == since + [r];
    forall id | id in after.rows ensures Signed(Trail(since + [r], id), after.rows[id]) {
      TrailOfLonger(since, r, id);
      if id == r.scenario && r.action != ReplayAction {
        SignedByRecord(db, after, r, Trail(since, id), StateOf(start, id));
      } else {
        SignedStill(db, after, r, id, Trail(since, id));
      }
    }
  }

  lemma SignedStill(db: Database, after: Database, r: AuditRecord, id: nat, trail: seq<AuditRecord>)
    requires RecordsOne(db, after, r) && (id != r.scenario || r.action == ReplayAction)
    requires id in after.rows && (id in db.rows ==> Signed(trail, db.rows[id]))
    ensures trail + [] == trail && Signed(trail, after.rows[id])
  {
    assert StateOf(after, id) == StateOf(db, id);
  }

  lemma SignedByRecord(db: Database, after: Database, r: AuditRecord, trail: seq<AuditRecord>,
                       start: Option<ScenarioState>)
    requires RecordsOne(db, after, r) && r.action != ReplayAction
    requires Explains(trail, start, StateOf(db, r.scenario))
    requires r.scenario in db.rows ==> Signed(trail, db.rows[r.scenario])
    ensures Signed(trail + [r], after.rows[r.scenario])
  {
    if r.scenario !in db.rows {
      NothingBeforeCreation(trail, start);
    }
  }

  /** A scenario that does not exist has no trail. */
  lemma NothingBeforeCreation(trail: seq<AuditRecord>, start: Option<ScenarioState>)
    requires Explains(trail, start, None)
    ensures trail == []
  {
  }

  lemma {:induction false} RunIsSigned(engine: Engine, states: seq<System>, events: seq<Event>, n: nat)
    requires engine.Coherent() && IsRun(engine, states, events) && Inv(engine, states[0]) && n < |states|
    ensures AllSigned(states[0].db, states[n].db)
  {
    if n == 0 {
      var db := states[0].db;
      assert db.audit[|db.audit|..] == [];
    } else {
      var i := n - 1;
      RunIsSigned(engine, states, events, i);
      RunIsExplained(engine, states, events, i);
      RunKeepsInv(engine, states, events, i);
      StepIsRecorded(engine, states, events, i);
      if states[n].db != states[i].db {
        var r :| RecordsOne(states[i].db, states[n].db, r);
        RecordKeepsSigned(states[0].db, states[i].db, states[n].db, r);
      }
    }
  }

  lemma StepIsRecorded(engine: Engine, states: seq<System>, events: seq<Event>, i: nat)
    requires IsRun(engine, states, events) && i < |events| && Inv(engine, states[i])
    ensures Atomic(states[i].db, states[i + 1].db)
  {
    assert StepsTo(engine, states[i], events[i], states[i + 1]);
    StepIsAtomic(engine, states[i], events[i]);
  }

  /** Two-person verification is on record: the trail of a verified scenario created during the run begins with a
      record signed by its creator and ends with one signed by its verifier, and these are different people. */
  lemma VerificationIsOnRecord(engine: Engine, states: seq<System>, events: seq<Event>, n: nat, id: nat)
    requires engine.Coherent() && IsRun(engine, states, events) && Inv(engine, states[0]) && n < |states|
    requires id in states[n].db.rows && id !in states[0].db.rows && states[n].db.rows[id].state == Verified
    ensures |states[0].db.audit| <= |states[n].db.audit|
    ensures var trail, row := Trail(states[n].db.audit[|states[0].db.audit|..], id), states[n].db.rows[id];
      && |trail| >= 5 && trail[0].action == CreateFrozenDraft
      && trail[0].actor == row.createdBy && row.verifiedBy == Some(trail[|trail| - 1].actor)
      && trail[0].actor != trail[|trail| - 1].actor
  {
    AuditExplainsState(engine, states, events, n, id);
    VerificationFollowsSimulation(Trail(states[n].db.audit[|states[0].db.audit|..], id));
    RunIsSigned(engine, states, events, n);
    RunKeepsInv(engine, states, events, n);
    assert RowOk(engine, states[n].db.rows[id]);
  }

  /** A verified scenario's trail ends with its last simulation followed by the moves to ready, executing and verified:
      nothing else can lie between that simulation and the verification. */
  lemma VerificationFollowsSimulation(trail: seq<AuditRecord>)
    requires LifeOf(trail, Verified)
    ensures |trail| >= 5
    ensures var n := |trail|;
      && trail[n - 4].action == SimulateAction && trail[n - 4].after.state == Simulated
      && trail[n - 3].action == TransitionAction && trail[n - 3].after.state == Ready
      && trail[n - 2].action == TransitionAction && trail[n - 2].after.state == Executing
      && trail[n - 1].action == TransitionAction && trail[n - 1].after.state == Verified
  {
    var n := |trail|;
    assert LegalRecord(trail[n - 1]) && trail[n - 2].after.state == Executing;
    assert LegalRecord(trail[n - 2]) && trail[n - 3].after.state == Ready;
    assert LegalRecord(trail[n - 3]) && trail[n - 4].after.state == Simulated;
    assert LegalRecord(trail[n - 4]);
  }
}
