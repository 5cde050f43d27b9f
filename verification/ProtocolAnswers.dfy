/** What each step of a request answers and writes, exactly, in terms of the columns of the row and of the actor. */
module ProtocolAnswers {
  import opened Wrappers
  import opened Actors
  import opened Protocol

  // ---------- guards ----------

  /** Administrators, PKI operators and the creator manage a scenario. */
  ghost predicate Manages(actor: Actor, row: Row) {
    actor.role.Admin? || actor.role.PkiOperator? || actor.userId == row.createdBy
  }

  /** The moves that can be asked for; leaving draft takes a simulation. */
  ghost predicate ListedMove(from: ScenarioState, to: ScenarioState) {
    || (from.Simulated? && to.Ready?) || (from.Simulated? && to.Draft?)
    || (from.Ready? && to.Executing?) || (from.Ready? && to.Draft?)
    || (from.Executing? && to.Verified?) || (from.Executing? && to.Rollback?)
  }

  /** A verification is by anybody but the creator, any other move by those who manage the scenario. */
  ghost predicate MayMove(actor: Actor, row: Row, to: ScenarioState) {
    if to.Verified? then actor.userId != row.createdBy else Manages(actor, row)
  }

  ghost predicate HasKey(rows: map<nat, Row>, id: nat, key: string) {
    id in rows && rows[id].key == key
  }

  ghost predicate KeyElsewhere(rows: map<nat, Row>, id: nat, key: string) {
    exists other :: other != id && HasKey(rows, other, key)
  }

  lemma KeyTakenElsewhere(rows: map<nat, Row>, id: nat, key: string)
    ensures KeyTaken(rows, id, key) <==> KeyElsewhere(rows, id, key)
  {
    if KeyTaken(rows, id, key) {
      var other :| other in rows && other != id && rows[other].key == key;
      assert HasKey(rows, other, key);
    }
  }

  /** The row was frozen under the same hash, version and simulation time. */
  ghost predicate SameFrozenInput(row: Row, inputHash: string, simulationTime: int) {
    row.inputHash == inputHash && row.version == "trust-path-window-v1.0.0" && row.simulationTime == simulationTime
  }

  // ---------- what a write leaves alone, and what it logs ----------

  ghost predicate OtherRowsKept(before: map<nat, Row>, after: map<nat, Row>, id: nat) {
    && after.Keys == before.Keys + {id}
    && forall other :: other in before && other != id ==> after[other] == before[other]
  }

  ghost predicate FrozenKept(before: Row, after: Row) {
    && after.input == before.input && after.inputHash == before.inputHash && after.version == before.version
    && after.simulationTime == before.simulationTime && after.createdBy == before.createdBy
  }

  ghost predicate LogsOne(before: Database, after: Database, id: nat, action: Action, actor: Actor) {
    && |after.audit| == |before.audit| + 1 && after.audit[..|before.audit|] == before.audit
    && var r := after.audit[|before.audit|];
       r.scenario == id && r.action == action && r.actor == actor.userId
  }

  // ---------- creation ----------

  /** A created row is a draft of the frozen snapshot by its creator, with nothing simulated, verified or replayed
      yet. */
  lemma CreationWrites(engine: Engine, sys: System, e: Event)
    requires e.Create? && Step(engine, sys, e).1 == Created(e.newId)
    ensures var after := Step(engine, sys, e).0;
      && after.pending == sys.pending && OtherRowsKept(sys.db.rows, after.db.rows, e.newId)
      && LogsOne(sys.db, after.db, e.newId, CreateFrozenDraft, e.actor)
      && var row := after.db.rows[e.newId];
         && row.input == engine.freeze(e.snapshot) && row.inputHash == engine.hash(engine.freeze(e.snapshot))
         && row.version == "trust-path-window-v1.0.0" && row.simulationTime == e.snapshot.config.simulationTime
         && row.createdBy == e.actor.userId && row.state.Draft? && row.key == "" && row.verifiedBy.None?
         && !row.replayVerified && row.rollbackRecord == ""
         && row.results.affected == row.results.broken == row.results.evidence == "[]"
         && after.db.audit[|sys.db.audit|].before.None? && after.db.audit[|sys.db.audit|].after == row
  {
  }

  lemma CreationAnswers(engine: Engine, sys: System, e: Event)
    requires e.Create?
    ensures var answer, rows := Step(engine, sys, e).1, sys.db.rows;
      var input := engine.freeze(e.snapshot);
      var taken :=
        || KeyElsewhere(rows, e.newId, "")
        || exists id :: id in rows && SameFrozenInput(rows[id], engine.hash(input), e.snapshot.config.simulationTime);
      && (answer == Refused(InvalidRequest) <==> !engine.accepts(e.snapshot))
      && (answer == Refused(DuplicateIndex) <==> engine.accepts(e.snapshot) && taken)
      && (answer == Refused(AuditFailed) <==> engine.accepts(e.snapshot) && !taken && !e.auditWorks)
      && (answer == Created(e.newId) <==> engine.accepts(e.snapshot) && !taken && e.auditWorks)
      && (answer != Created(e.newId) ==> Step(engine, sys, e).0 == sys)
  {
    var rows, row := sys.db.rows, DraftOf(engine, e.snapshot, e.actor);
    KeyTakenElsewhere(rows, e.newId, "");
    assert InputTaken(rows, row) <==>
      exists id :: id in rows && SameFrozenInput(rows[id], row.inputHash, row.simulationTime);
  }

  // ---------- simulation ----------

  lemma SimulationAnswers(engine: Engine, sys: System, e: Event)
    requires e.BeginSimulate?
    ensures var answer := Step(engine, sys, e).1;
      && (answer == Refused(MissingKey) <==> |e.key| == 0)
      && (answer == Refused(KeyTooLong) <==> |e.key| > 128)
      && (0 < |e.key| <= 128 ==>
            && (answer == Refused(NotFound) <==> e.id !in sys.db.rows)
            && (answer == Refused(Forbidden) <==> e.id in sys.db.rows && !Manages(e.actor, sys.db.rows[e.id]))
            && (answer == Proceeding <==> e.id in sys.db.rows && Manages(e.actor, sys.db.rows[e.id])))
      && Step(engine, sys, e).0 ==
           if answer == Proceeding then
             sys.(pending := sys.pending[e.token := SimulateRead(e.id, e.key, e.actor, sys.db.rows[e.id])])
           else sys
  {
  }

  /** A lookup finds its key at another scenario, or at its own, or nowhere; only in the last case, and only for a
      row that was read as a draft, the frozen input is simulated. */
  lemma LookupAnswers(engine: Engine, sys: System, token: nat)
    requires token in sys.pending && sys.pending[token].SimulateRead?
    ensures var p, r := sys.pending[token], Step(engine, sys, LookupKey(token));
      var elsewhere := KeyElsewhere(sys.db.rows, p.id, p.key);
      var own := HasKey(sys.db.rows, p.id, p.key);
      && r.0.db == sys.db
      && (elsewhere ==> r.1 == Refused(KeyBoundElsewhere))
      && (r.1.Reused? <==> !elsewhere && own) && (r.1.Reused? ==> r.1.row == sys.db.rows[p.id])
      && (r.1 == Proceeding <==> !elsewhere && !own && p.seen.state.Draft? && engine.run(p.seen.input).Ok?)
      && (!elsewhere && !own && !p.seen.state.Draft? ==> r.1 == Refused(NotDraft))
      && (!elsewhere && !own && p.seen.state.Draft? && engine.run(p.seen.input).Err? ==>
            r.1 == Refused(engine.run(p.seen.input).error))
      && r.0.pending == if r.1 == Proceeding then
           sys.pending[token := SimulateReady(p.id, p.key, p.actor, p.seen, engine.run(p.seen.input).value)]
         else sys.pending - {token}
  {
    KeyTakenElsewhere(sys.db.rows, sys.pending[token].id, sys.pending[token].key);
  }

  /** A simulation that is ready commits exactly when its row is a draft, no other row has its key and the record is
      written; then the row is simulated, with that key and those results, and nothing else of it changes. */
  lemma SimulationWrites(engine: Engine, sys: System, token: nat, works: bool)
    requires token in sys.pending && sys.pending[token].SimulateReady?
    ensures var p, r := sys.pending[token], Step(engine, sys, CommitSimulate(token, works));
      var rows := sys.db.rows;
      var draft := p.id in rows && rows[p.id].state.Draft?;
      var elsewhere := KeyElsewhere(rows, p.id, p.key);
      && r.0.pending == sys.pending - {token}
      && (r.1 == Refused(ChangedConcurrently) <==> !draft)
      && (r.1 == Refused(DuplicateIndex) <==> draft && elsewhere)
      && (r.1 == Refused(AuditFailed) <==> draft && !elsewhere && !works)
      && (r.1 == Committed <==> draft && !elsewhere && works)
      && (r.1 != Committed ==> r.0.db == sys.db)
      && (r.1 == Committed ==>
            && OtherRowsKept(rows, r.0.db.rows, p.id) && LogsOne(sys.db, r.0.db, p.id, SimulateAction, p.actor)
            && var before, after := rows[p.id], r.0.db.rows[p.id];
               && FrozenKept(before, after) && after.state.Simulated? && after.key == p.key
                  && after.results == p.results
               && after.verifiedBy == before.verifiedBy && after.replayVerified == before.replayVerified
               && after.rollbackRecord == before.rollbackRecord)
  {
    KeyTakenElsewhere(sys.db.rows, sys.pending[token].id, sys.pending[token].key);
  }

  // ---------- transitions ----------

  /** A transition is refused for the first guard it fails, and goes on exactly when its target is not the simulated
      state, its comment not too long, its row there, the move listed and the actor entitled to it. */
  lemma TransitionAnswers(engine: Engine, sys: System, e: Event)
    requires e.BeginTransition?
    ensures var answer, proper := Step(engine, sys, e).1, !e.to.Simulated? && |e.comment| <= 1000;
      && (answer == Refused(InvalidRequest) <==> !proper)
      && (answer == Refused(NotFound) <==> proper && e.id !in sys.db.rows)
      && (proper && e.id in sys.db.rows ==>
            var row := sys.db.rows[e.id];
            && (answer == Refused(Forbidden) <==> !e.to.Verified? && !Manages(e.actor, row))
            && (answer == Refused(IllegalTransition) <==>
                  (e.to.Verified? || Manages(e.actor, row)) && !ListedMove(row.state, e.to))
            && (answer == Refused(ReviewerConflict) <==>
                  e.to.Verified? && ListedMove(row.state, e.to) && e.actor.userId == row.createdBy))
      && (answer == Proceeding <==>
            && proper && e.id in sys.db.rows
            && ListedMove(sys.db.rows[e.id].state, e.to) && MayMove(e.actor, sys.db.rows[e.id], e.to))
      && Step(engine, sys, e).0 ==
           if answer == Proceeding then
             sys.(pending := sys.pending[e.token := TransitionReady(e.id, e.to, e.comment, e.actor, sys.db.rows[e.id])])
           else sys
  {
  }

  /** A transition commits exactly when its row is still in the state that was read and the record is written. It
      writes the new state, on verification the verifier, and on rollback the comment. */
  lemma TransitionWrites(engine: Engine, sys: System, token: nat, works: bool)
    requires token in sys.pending && sys.pending[token].TransitionReady?
    ensures var p, r := sys.pending[token], Step(engine, sys, CommitTransition(token, works));
      var current := p.id in sys.db.rows && sys.db.rows[p.id].state == p.seen.state;
      && r.0.pending == sys.pending - {token}
      && (r.1 == Refused(ChangedConcurrently) <==> !current)
      && (r.1 == Refused(AuditFailed) <==> current && !works)
      && (r.1 == Committed <==> current && works)
      && (r.1 != Committed ==> r.0.db == sys.db)
      && (r.1 == Committed ==>
            && OtherRowsKept(sys.db.rows, r.0.db.rows, p.id) && LogsOne(sys.db, r.0.db, p.id, TransitionAction, p.actor)
            && var before, after := sys.db.rows[p.id], r.0.db.rows[p.id];
               && FrozenKept(before, after) && after.state == p.to && after.key == before.key
               && after.results == before.results && after.replayVerified == before.replayVerified
               && after.verifiedBy == (if p.to.Verified? then Some(p.actor.userId) else before.verifiedBy)
               && after.rollbackRecord == (if p.to.Rollback? then p.comment else before.rollbackRecord))
  {
  }

  // ---------- replay ----------

  lemma ReplayAnswers(engine: Engine, sys: System, e: Event)
    requires e.BeginReplay?
    ensures var answer := Step(engine, sys, e).1;
      && (e.id !in sys.db.rows ==> answer == Refused(NotFound))
      && (e.id in sys.db.rows ==>
            var row := sys.db.rows[e.id];
            && (!Manages(e.actor, row) ==> answer == Refused(Forbidden))
            && (Manages(e.actor, row) && row.state.Draft? ==> answer == Refused(NothingToReplay))
            && (Manages(e.actor, row) && !row.state.Draft? && engine.run(row.input).Err? ==>
                  answer == Refused(engine.run(row.input).error)))
      && (answer == Proceeding <==>
            && e.id in sys.db.rows && Manages(e.actor, sys.db.rows[e.id]) && !sys.db.rows[e.id].state.Draft?
            && engine.run(sys.db.rows[e.id].input).Ok?)
      && (answer != Proceeding ==> Step(engine, sys, e).0 == sys)
      && (answer == Proceeding ==>
            var row := sys.db.rows[e.id];
            var again := engine.run(row.input).value;
            var same := && again.affected == row.results.affected && again.broken == row.results.broken
                        && again.evidence == row.results.evidence && again.explanation == row.results.explanation;
            Step(engine, sys, e).0 == sys.(pending := sys.pending[e.token := ReplayReady(e.id, e.actor, row, same)]))
  {
  }

  lemma ReplayWrites(engine: Engine, sys: System, token: nat, works: bool)
    requires token in sys.pending && sys.pending[token].ReplayReady?
    ensures var p, r := sys.pending[token], Step(engine, sys, CommitReplay(token, works));
      && r.0.pending == sys.pending - {token}
      && (r.1 == Refused(NotFound) <==> p.id !in sys.db.rows)
      && (r.1 == Refused(AuditFailed) <==> p.id in sys.db.rows && !works)
      && (r.1 == Refused(ReplayDiffers) <==> p.id in sys.db.rows && works && !p.passed)
      && (r.1 == Committed <==> p.id in sys.db.rows && works && p.passed)
      && (p.id !in sys.db.rows || !works ==> r.0.db == sys.db)
      && (p.id in sys.db.rows && works ==>
            && OtherRowsKept(sys.db.rows, r.0.db.rows, p.id) && LogsOne(sys.db, r.0.db, p.id, ReplayAction, p.actor)
            && var before, after := sys.db.rows[p.id], r.0.db.rows[p.id];
               && FrozenKept(before, after) && after.replayVerified == p.passed && after.state == before.state
               && after.key == before.key && after.results == before.results
               && after.verifiedBy == before.verifiedBy && after.rollbackRecord == before.rollbackRecord)
  {
  }
}
