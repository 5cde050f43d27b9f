/** The rollover-scenario protocol. A request reads a row, computes, and later commits a conditional update together
    with one audit record; the steps of different requests interleave freely. */
module Protocol {
  import opened Wrappers
  import opened Actors
  import opened Snapshots

  datatype ScenarioState = Draft | Simulated | Ready | Executing | Verified | Rollback

  predicate CanTransition(from: ScenarioState, to: ScenarioState) {
    match from
    case Draft => to == Simulated
    case Simulated => to == Ready || to == Draft
    case Ready => to == Executing || to == Draft
    case Executing => to == Verified || to == Rollback
    case _ => false
  }

  /** The stored texts of a simulation. */
  datatype Results = Results(affected: string, broken: string, evidence: string, explanation: string)

  const NO_RESULTS := Results("[]", "[]", "[]", "Frozen input is ready for offline simulation.")

  datatype Row = Row(
    input: string, inputHash: string, version: string, simulationTime: int, createdBy: nat,
    state: ScenarioState, results: Results, key: string, verifiedBy: Option<nat>, replayVerified: bool,
    rollbackRecord: string)

  datatype Action = CreateFrozenDraft | SimulateAction | TransitionAction | ReplayAction

  datatype AuditRecord = AuditRecord(scenario: nat, action: Action, actor: nat, before: Option<Row>, after: Row)

  datatype Database = Database(rows: map<nat, Row>, audit: seq<AuditRecord>)

  /** What the protocol uses of the simulator and of the text encodings: which snapshots are accepted, how they are
      frozen as text, and what simulating a frozen text stores. */
  datatype Engine = Engine(
    accepts: Snapshot -> bool, freeze: Snapshot -> string, hash: string -> string,
    run: string -> Result<Results, Refusal>)
  {
    /** Every accepted snapshot can be simulated from its frozen text. */
    ghost predicate Coherent() {
      forall s :: accepts(s) ==> run(freeze(s)).Ok?
    }
  }

  // ---------- requests in progress ----------

  datatype Pending =
    | SimulateRead(id: nat, key: string, actor: Actor, seen: Row)
    | SimulateReady(id: nat, key: string, actor: Actor, seen: Row, results: Results)
    | TransitionReady(id: nat, to: ScenarioState, comment: string, actor: Actor, seen: Row)
    | ReplayReady(id: nat, actor: Actor, seen: Row, passed: bool)

  datatype System = System(db: Database, pending: map<nat, Pending>)

  datatype Refusal =
    | InvalidRequest | MissingKey | KeyTooLong | NotFound | Forbidden | KeyBoundElsewhere | NotDraft
    | SnapshotUndecodable | SimulationFailed | ChangedConcurrently | DuplicateIndex | AuditFailed
    | IllegalTransition | ReviewerConflict | NothingToReplay | ReplayDiffers | NoSuchRequest

  datatype Response =
    | Proceeding
    | Created(newId: nat)
    | Committed
    | Reused(row: Row)
    | Refused(reason: Refusal)

  /** `auditWorks` says whether the audit record can be appended; `newId` is the identifier the database assigns. */
  datatype Event =
    | Create(snapshot: Snapshot, actor: Actor, newId: nat, auditWorks: bool)
    | BeginSimulate(token: nat, id: nat, key: string, actor: Actor)
    | LookupKey(token: nat)
    | CommitSimulate(token: nat, auditWorks: bool)
    | BeginTransition(token: nat, id: nat, to: ScenarioState, comment: string, actor: Actor)
    | CommitTransition(token: nat, auditWorks: bool)
    | BeginReplay(token: nat, id: nat, actor: Actor)
    | CommitReplay(token: nat, auditWorks: bool)

  predicate Owns(actor: Actor, row: Row) {
    actor.role == Admin || actor.role == PkiOperator || row.createdBy == actor.userId
  }

  predicate KeyTaken(rows: map<nat, Row>, id: nat, key: string) {
    exists other :: other in rows && other != id && rows[other].key == key
  }

  predicate InputTaken(rows: map<nat, Row>, row: Row) {
    exists other :: other in rows && rows[other].inputHash == row.inputHash && rows[other].version == row.version
                    && rows[other].simulationTime == row.simulationTime
  }

  function DraftOf(engine: Engine, snapshot: Snapshot, actor: Actor): Row {
    var input := engine.freeze(snapshot);
    Row(input, engine.hash(input), VERSION, snapshot.config.simulationTime, actor.userId,
        Draft, NO_RESULTS, "", None, false, "")
  }

  // ---------- commits: one row and one audit record, or nothing ----------

  function WithTransition(row: Row, to: ScenarioState, comment: string, actor: Actor): Row {
    row.(state := to,
         verifiedBy := if to == Verified then Some(actor.userId) else row.verifiedBy,
         rollbackRecord := if to == Rollback then comment else row.rollbackRecord)
  }

  function CommitCreate(engine: Engine, db: Database, e: Event): (Database, Response)
    requires e.Create?
  {
    var row := DraftOf(engine, e.snapshot, e.actor);
    if !engine.accepts(e.snapshot) then (db, Refused(InvalidRequest))
    else if KeyTaken(db.rows, e.newId, "") || InputTaken(db.rows, row) then (db, Refused(DuplicateIndex))
    else if !e.auditWorks then (db, Refused(AuditFailed))
    else (Database(db.rows[e.newId := row],
                   db.audit + [AuditRecord(e.newId, CreateFrozenDraft, e.actor.userId, None, row)]), Created(e.newId))
  }

  function CommitSimulation(db: Database, p: Pending, auditWorks: bool): (Database, Response)
    requires p.SimulateReady?
  {
    if p.id !in db.rows || db.rows[p.id].state != Draft then (db, Refused(ChangedConcurrently))
    else if KeyTaken(db.rows, p.id, p.key) then (db, Refused(DuplicateIndex))
    else if !auditWorks then (db, Refused(AuditFailed))
    else
      var row := db.rows[p.id].(state := Simulated, results := p.results, key := p.key);
      var after := p.seen.(state := Simulated, results := p.results, key := p.key);
      (Database(db.rows[p.id := row],
                db.audit + [AuditRecord(p.id, SimulateAction, p.actor.userId, Some(p.seen), after)]), Committed)
  }

  function CommitMove(db: Database, p: Pending, auditWorks: bool): (Database, Response)
    requires p.TransitionReady?
  {
    if p.id !in db.rows || db.rows[p.id].state != p.seen.state then (db, Refused(ChangedConcurrently))
    else if !auditWorks then (db, Refused(AuditFailed))
    else
      (Database(db.rows[p.id := WithTransition(db.rows[p.id], p.to, p.comment, p.actor)],
                db.audit + [AuditRecord(p.id, TransitionAction, p.actor.userId, Some(p.seen),
                                        WithTransition(p.seen, p.to, p.comment, p.actor))]), Committed)
  }

  function CommitReplayed(db: Database, p: Pending, auditWorks: bool): (Database, Response)
    requires p.ReplayReady?
  {
    if p.id !in db.rows then (db, Refused(NotFound))
    else if !auditWorks then (db, Refused(AuditFailed))
    else
      (Database(db.rows[p.id := db.rows[p.id].(replayVerified := p.passed)],
                db.audit + [AuditRecord(p.id, ReplayAction, p.actor.userId, Some(p.seen),
                                        p.seen.(replayVerified := p.passed))]),
       if p.passed then Committed else Refused(ReplayDiffers))
  }

  // ---------- reads ----------

  function ReadForSimulate(db: Database, e: Event): Result<Pending, Refusal>
    requires e.BeginSimulate?
  {
    if e.key == "" then Err(MissingKey)
    else if |e.key| > 128 then Err(KeyTooLong)
    else if e.id !in db.rows then Err(NotFound)
    else if !Owns(e.actor, db.rows[e.id]) then Err(Forbidden)
    else Ok(SimulateRead(e.id, e.key, e.actor, db.rows[e.id]))
  }

  /** The key is looked up after the row was read; the two reads need not agree. */
  function Lookup(engine: Engine, db: Database, p: Pending): (r: Result<Pending, Response>)
    requires p.SimulateRead?
    ensures r.Ok? ==> r.value.SimulateReady?
  {
    if KeyTaken(db.rows, p.id, p.key) then Err(Refused(KeyBoundElsewhere))
    else if p.id in db.rows && db.rows[p.id].key == p.key then Err(Reused(db.rows[p.id]))
    else if p.seen.state != Draft then Err(Refused(NotDraft))
    else match engine.run(p.seen.input)
      case Err(e) => Err(Refused(e))
      case Ok(results) => Ok(SimulateReady(p.id, p.key, p.actor, p.seen, results))
  }

  function ReadForTransition(db: Database, e: Event): Result<Pending, Refusal>
    requires e.BeginTransition?
  {
    if e.to == Simulated || |e.comment| > 1000 then Err(InvalidRequest)
    else if e.id !in db.rows then Err(NotFound)
    else
      var row := db.rows[e.id];
      if e.to != Verified && !Owns(e.actor, row) then Err(Forbidden)
      else if !CanTransition(row.state, e.to) then Err(IllegalTransition)
      else if e.to == Verified && row.createdBy == e.actor.userId then Err(ReviewerConflict)
      else Ok(TransitionReady(e.id, e.to, e.comment, e.actor, row))
  }

  function ReadForReplay(engine: Engine, db: Database, e: Event): Result<Pending, Refusal>
    requires e.BeginReplay?
  {
    if e.id !in db.rows then Err(NotFound)
    else
      var row := db.rows[e.id];
      if !Owns(e.actor, row) then Err(Forbidden)
      else if row.state == Draft then Err(NothingToReplay)
      else Replayed(engine, e.id, e.actor, row)
  }

  function Replayed(engine: Engine, id: nat, actor: Actor, row: Row): Result<Pending, Refusal> {
    match engine.run(row.input)
    case Err(reason) => Err(reason)
    case Ok(results) => Ok(ReplayReady(id, actor, row, results == row.results))
  }

  // ---------- one step ----------

  function Began(sys: System, token: nat, r: Result<Pending, Refusal>): (System, Response) {
    match r
    case Ok(p) => (sys.(pending := sys.pending[token := p]), Proceeding)
    case Err(reason) => (sys, Refused(reason))
  }

  function Finished(sys: System, token: nat, r: (Database, Response)): (System, Response) {
    (System(r.0, sys.pending - {token}), r.1)
  }

  function Step(engine: Engine, sys: System, e: Event): (System, Response) {
    match e
    case Create(_, _, _, _) =>
      var r := CommitCreate(engine, sys.db, e);
      (sys.(db := r.0), r.1)
    case BeginSimulate(token, _, _, _) => Began(sys, token, ReadForSimulate(sys.db, e))
    case LookupKey(token) =>
      if token !in sys.pending || !sys.pending[token].SimulateRead? then (sys, Refused(NoSuchRequest))
      else (match Lookup(engine, sys.db, sys.pending[token])
            case Ok(p) => (sys.(pending := sys.pending[token := p]), Proceeding)
            case Err(response) => (sys.(pending := sys.pending - {token}), response))
    case CommitSimulate(token, auditWorks) =>
      if token !in sys.pending || !sys.pending[token].SimulateReady? then (sys, Refused(NoSuchRequest))
      else Finished(sys, token, CommitSimulation(sys.db, sys.pending[token], auditWorks))
    case BeginTransition(token, _, _, _, _) => Began(sys, token, ReadForTransition(sys.db, e))
    case CommitTransition(token, auditWorks) =>
      if token !in sys.pending || !sys.pending[token].TransitionReady? then (sys, Refused(NoSuchRequest))
      else Finished(sys, token, CommitMove(sys.db, sys.pending[token], auditWorks))
    case BeginReplay(token, _, _) => Began(sys, token, ReadForReplay(engine, sys.db, e))
    case CommitReplay(token, auditWorks) =>
      if token !in sys.pending || !sys.pending[token].ReplayReady? then (sys, Refused(NoSuchRequest))
      else Finished(sys, token, CommitReplayed(sys.db, sys.pending[token], auditWorks))
  }

  /** Tokens of new requests are new, and identifiers assigned by the database are not in use. */
  ghost predicate Allowed(sys: System, e: Event) {
    match e
    case Create(_, _, newId, _) => newId !in sys.db.rows && newId > 0
    case BeginSimulate(token, _, _, _) => token !in sys.pending
    case BeginTransition(token, _, _, _, _) => token !in sys.pending
    case BeginReplay(token, _, _) => token !in sys.pending
    case _ => true
  }

  ghost predicate StepsTo(engine: Engine, sys: System, e: Event, after: System) {
    Allowed(sys, e) && after == Step(engine, sys, e).0
  }

  /** `states` is the run that `events` produce from `states[0]`. */
  ghost predicate IsRun(engine: Engine, states: seq<System>, events: seq<Event>) {
    && |states| == |events| + 1
    && forall i {:trigger StepsTo(engine, states[i], events[i], states[i + 1])} :: 0 <= i < |events| ==>
         StepsTo(engine, states[i], events[i], states[i + 1])
  }
}
