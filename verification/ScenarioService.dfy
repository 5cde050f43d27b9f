/** The service object, with the scenario table, the audit log and the requests in progress as its state. Each method is
    one step of a request; a commit is a transaction that is undone if its audit record cannot be written. */
module ScenarioService {
  import opened Wrappers
  import opened Actors
  import opened Ordered
  import opened Snapshots
  import opened Validation
  import opened Freezing
  import opened Simulation
  import opened Protocol
  import opened ProtocolInvariant
  import opened ProtocolHistory
  import opened ScenarioEngine

  /** `e` creates a scenario from the request frozen with the tables. */
  ghost predicate FrozenRequest(e: Event, config: ScenarioConfig, tables: Tables, actor: Actor, newId: nat,
                                works: bool) {
    && e.Create? && e.actor == actor && e.newId == newId && e.auditWorks == works
    && WellFormed(e.snapshot) && FreezesTables(e.snapshot, config, tables)
  }

  /** Seeds an empty database with one scenario, simulated under a key of its own. */
  method Seed(codec: Codec, snapshot: Snapshot, creator: nat, id: nat, key: string) returns (row: Row)
    requires codec.RoundTrips() && WellFormed(snapshot) && DistinctBy(snapshot.services, ServiceId) && key != ""
    ensures row.input == codec.encodeSnapshot(snapshot) && row.createdBy == creator && row.key == key
    ensures row.state == Simulated && ServiceRun(codec, [System(Database(Single(id, row), []), map[])], [])
  {
    var result := Simulate(snapshot);
    var input := codec.encodeSnapshot(snapshot);
    assert codec.decodeSnapshot(input) == Some(snapshot);
    row := Row(input, codec.hash(input), VERSION, snapshot.config.simulationTime, creator,
               Simulated, codec.Encode(result.value), key, None, false, "");
    SeededBegins(codec, id, row);
  }

  class RolloverScenarios {
    const codec: Codec
    var rows: map<nat, Row>
    var audit: seq<AuditRecord>
    var pending: map<nat, Pending>

    /** The run so far, which ends in the state of the object. */
    ghost var states: seq<System>
    ghost var events: seq<Event>

    ghost function State(): System
      reads this
    {
      System(Database(rows, audit), pending)
    }

    /** The object has been driven through a run, so that what is proved of runs holds of it. */
    ghost predicate Valid()
      reads this
    {
      ServiceRun(codec, states, events) && states[|events|] == State()
    }

    /** The run has gone on by `e`, whose answer is `r`. */
    ghost predicate Advanced(before: System, past: seq<Event>, e: Event, r: Response)
      reads this
    {
      Valid() && events == past + [e] && (State(), r) == Step(EngineOf(codec), before, e)
    }

    lemma ValidIsInOrder()
      requires Valid()
      ensures Inv(EngineOf(codec), State()) && TextsOk(codec, rows)
    {
      ServiceRunKeeps(codec, states, events, |events|);
    }

    /** Over a database that a run can begin with, such as the empty one or the one that `Seed` makes. */
    constructor (codec: Codec, rows: map<nat, Row>)
      requires ServiceRun(codec, [System(Database(rows, []), map[])], [])
      ensures Valid() && this.codec == codec && events == [] && State() == System(Database(rows, []), map[])
    {
      this.codec, this.rows, audit, pending := codec, rows, [], map[];
      states, events := [System(Database(rows, []), map[])], [];
    }

    /** The run goes on with `e`. */
    ghost method Extend(e: Event)
      requires Valid() && Allowed(State(), e) && FromTables(e)
      modifies this`states, this`events
      ensures ServiceRun(codec, states, events) && events == old(events) + [e]
      ensures states[|events|] == Step(EngineOf(codec), old(State()), e).0
    {
      RunExtends(codec, states, events, e);
      states, events := states + [Step(EngineOf(codec), State(), e).0], events + [e];
    }

    /** Undoes a transaction whose audit record could not be written. */
    method Record(record: AuditRecord, auditWorks: bool, before: map<nat, Row>) returns (ok: bool)
      modifies this`rows, this`audit
      ensures ok == auditWorks
      ensures ok ==> rows == old(rows) && audit == old(audit) + [record]
      ensures !ok ==> rows == before && audit == old(audit)
    {
      if auditWorks {
        audit := audit + [record];
      } else {
        rows := before;
      }
      ok := auditWorks;
    }

    /** Freezes the tables for a request and, if they can be, inserts the draft. */
    method CreateScenario(config: ScenarioConfig, tables: Tables, actor: Actor, newId: nat, auditWorks: bool)
      returns (r: Result<Response, FreezeError>)
      requires Valid() && ValidTables(tables) && newId !in rows && newId > 0
      modifies this
      ensures r.Ok? <==> Freezable(config, tables)
      ensures r.Ok? ==>
        && |events| > 0 && FrozenRequest(events[|events| - 1], config, tables, actor, newId, auditWorks)
        && Advanced(old(State()), old(events), events[|events| - 1], r.value)
      ensures r.Err? ==> RequestError(config, tables) in {None, Some(r.error)}
      ensures r.Err? ==> Valid() && State() == old(State()) && events == old(events)
    {
      var frozen := Freeze(config, tables);
      if frozen.Err? {
        return Err(frozen.error);
      }
      FrozenServicesDistinct(frozen.value, config, tables);
      var answer := InsertDraft(frozen.value, actor, newId, auditWorks);
      return Ok(answer);
    }

    method InsertDraft(snapshot: Snapshot, actor: Actor, newId: nat, auditWorks: bool) returns (r: Response)
      requires Valid() && WellFormed(snapshot) && DistinctBy(snapshot.services, ServiceId)
      requires Allowed(State(), Create(snapshot, actor, newId, auditWorks))
      modifies this
      ensures Advanced(old(State()), old(events), Create(snapshot, actor, newId, auditWorks), r)
    {
      Extend(Create(snapshot, actor, newId, auditWorks));
      var input := codec.encodeSnapshot(snapshot);
      var row := Row(input, codec.hash(input), VERSION, snapshot.config.simulationTime, actor.userId,
                     Draft, NO_RESULTS, "", None, false, "");
      if KeyTaken(rows, newId, "") || InputTaken(rows, row) {
        return Refused(DuplicateIndex);
      }
      var before := rows;
      rows := rows[newId := row];
      var ok := Record(AuditRecord(newId, CreateFrozenDraft, actor.userId, None, row), auditWorks, before);
      r := if ok then Created(newId) else Refused(AuditFailed);
    }

    method StartSimulate(token: nat, id: nat, key: string, actor: Actor) returns (r: Response)
      requires Valid() && Allowed(State(), BeginSimulate(token, id, key, actor))
      modifies this`pending, this`states, this`events
      ensures Advanced(old(State()), old(events), BeginSimulate(token, id, key, actor), r)
    {
      Extend(BeginSimulate(token, id, key, actor));
      if key == "" {
        return Refused(MissingKey);
      }
      if |key| > 128 {
        return Refused(KeyTooLong);
      }
      if id !in rows {
        return Refused(NotFound);
      }
      var scenario := rows[id];
      if !Owns(actor, scenario) {
        return Refused(Forbidden);
      }
      pending := pending[token := SimulateRead(id, key, actor, scenario)];
      return Proceeding;
    }

    method FindByKey(key: string) returns (found: Option<nat>)
      ensures found.Some? ==> found.value in rows && rows[found.value].key == key
      ensures found.None? ==> forall id :: id in rows ==> rows[id].key != key
    {
      var remaining := rows.Keys;
      while remaining != {}
        invariant remaining <= rows.Keys
        invariant forall id :: id in rows && id !in remaining ==> rows[id].key != key
      {
        var id :| id in remaining;
        if rows[id].key == key {
          return Some(id);
        }
        remaining := remaining - {id};
      }
      return None;
    }

    /** Decodes the frozen text of a row and simulates it. */
    method SimulateFrozen(input: string) returns (r: Result<Results, Refusal>)
      ensures r == EngineOf(codec).run(input)
    {
      var decoded := codec.decodeSnapshot(input);
      if decoded.None? {
        return Err(SnapshotUndecodable);
      }
      var result := Simulate(decoded.value);
      if result.Err? {
        return Err(SimulationFailed);
      }
      return Ok(codec.Encode(result.value));
    }

    method LookUpAndSimulate(token: nat) returns (r: Response)
      requires Valid() && token in pending && pending[token].SimulateRead?
      modifies this`pending, this`states, this`events
      ensures Advanced(old(State()), old(events), LookupKey(token), r)
    {
      LookupReliesOn(codec, states, events, |events|);
      Extend(LookupKey(token));
      var p := pending[token];
      var prior := FindByKey(p.key);
      if prior.Some? {
        pending := pending - {token};
        if prior.value != p.id {
          return Refused(KeyBoundElsewhere);
        }
        return Reused(rows[prior.value]);
      }
      if p.seen.state != Draft {
        pending := pending - {token};
        return Refused(NotDraft);
      }
      var result := SimulateFrozen(p.seen.input);
      if result.Err? {
        pending := pending - {token};
        return Refused(result.error);
      }
      pending := pending[token := SimulateReady(p.id, p.key, p.actor, p.seen, result.value)];
      return Proceeding;
    }

    method FinishSimulate(token: nat, auditWorks: bool) returns (r: Response)
      requires Valid() && token in pending && pending[token].SimulateReady?
      modifies this
      ensures Advanced(old(State()), old(events), CommitSimulate(token, auditWorks), r)
    {
      Extend(CommitSimulate(token, auditWorks));
      var p := pending[token];
      pending := pending - {token};
      var before := rows;
      if p.id !in rows || rows[p.id].state != Draft {
        return Refused(ChangedConcurrently);
      }
      if KeyTaken(rows, p.id, p.key) {
        return Refused(DuplicateIndex);
      }
      rows := rows[p.id := rows[p.id].(state := Simulated, results := p.results, key := p.key)];
      var scenario := p.seen.(state := Simulated, results := p.results, key := p.key);
      var ok := Record(AuditRecord(p.id, SimulateAction, p.actor.userId, Some(p.seen), scenario), auditWorks, before);
      r := if ok then Committed else Refused(AuditFailed);
    }

    method StartTransition(token: nat, id: nat, to: ScenarioState, comment: string, actor: Actor) returns (r: Response)
      requires Valid() && Allowed(State(), BeginTransition(token, id, to, comment, actor))
      modifies this`pending, this`states, this`events
      ensures Advanced(old(State()), old(events), BeginTransition(token, id, to, comment, actor), r)
    {
      Extend(BeginTransition(token, id, to, comment, actor));
      if to == Simulated || |comment| > 1000 {
        return Refused(Refusal.InvalidRequest);
      }
      if id !in rows {
        return Refused(NotFound);
      }
      var scenario := rows[id];
      if to != Verified {
        if !Owns(actor, scenario) {
          return Refused(Forbidden);
        }
      }
      if !CanTransition(scenario.state, to) {
        return Refused(IllegalTransition);
      }
      if to == Verified && scenario.createdBy == actor.userId {
        return Refused(ReviewerConflict);
      }
      pending := pending[token := TransitionReady(id, to, comment, actor, scenario)];
      return Proceeding;
    }

    method FinishTransition(token: nat, auditWorks: bool) returns (r: Response)
      requires Valid() && token in pending && pending[token].TransitionReady?
      modifies this
      ensures Advanced(old(State()), old(events), CommitTransition(token, auditWorks), r)
    {
      Extend(CommitTransition(token, auditWorks));
      var p := pending[token];
      pending := pending - {token};
      var before := rows;
      if p.id !in rows || rows[p.id].state != p.seen.state {
        return Refused(ChangedConcurrently);
      }
      var row, scenario := rows[p.id].(state := p.to), p.seen.(state := p.to);
      if p.to == Verified {
        row, scenario := row.(verifiedBy := Some(p.actor.userId)), scenario.(verifiedBy := Some(p.actor.userId));
      }
      if p.to == Rollback {
        row, scenario := row.(rollbackRecord := p.comment), scenario.(rollbackRecord := p.comment);
      }
      rows := rows[p.id := row];
      var ok := Record(AuditRecord(p.id, TransitionAction, p.actor.userId, Some(p.seen), scenario), auditWorks, before);
      r := if ok then Committed else Refused(AuditFailed);
    }

    /** Simulates the frozen text of a row again and compares the results with the stored ones. */
    method SimulateAgain(id: nat, actor: Actor, scenario: Row) returns (r: Result<Pending, Refusal>)
      ensures r == Replayed(EngineOf(codec), id, actor, scenario)
    {
      var result := SimulateFrozen(scenario.input);
      if result.Err? {
        return Err(result.error);
      }
      return Ok(ReplayReady(id, actor, scenario, result.value == scenario.results));
    }

    method ReadReplay(token: nat, id: nat, actor: Actor) returns (r: Result<Pending, Refusal>)
      ensures r == ReadForReplay(EngineOf(codec), State().db, BeginReplay(token, id, actor))
    {
      if id !in rows {
        return Err(NotFound);
      }
      var scenario := rows[id];
      if !Owns(actor, scenario) {
        return Err(Forbidden);
      }
      if scenario.state == Draft {
        return Err(NothingToReplay);
      }
      r := SimulateAgain(id, actor, scenario);
    }

    method StartReplay(token: nat, id: nat, actor: Actor) returns (r: Response)
      requires Valid() && Allowed(State(), BeginReplay(token, id, actor))
      modifies this`pending, this`states, this`events
      ensures Advanced(old(State()), old(events), BeginReplay(token, id, actor), r)
    {
      var read := ReadReplay(token, id, actor);
      Extend(BeginReplay(token, id, actor));
      if read.Err? {
        return Refused(read.error);
      }
      pending := pending[token := read.value];
      return Proceeding;
    }

    method FinishReplay(token: nat, auditWorks: bool) returns (r: Response)
      requires Valid() && token in pending && pending[token].ReplayReady?
      modifies this
      ensures Advanced(old(State()), old(events), CommitReplay(token, auditWorks), r)
    {
      Extend(CommitReplay(token, auditWorks));
      var p := pending[token];
      pending := pending - {token};
      var before := rows;
      if p.id !in rows {
        return Refused(NotFound);
      }
      rows := rows[p.id := rows[p.id].(replayVerified := p.passed)];
      var after := p.seen.(replayVerified := p.passed);
      var ok := Record(AuditRecord(p.id, ReplayAction, p.actor.userId, Some(p.seen), after), auditWorks, before);
      if !ok {
        return Refused(AuditFailed);
      }
      r := if p.passed then Committed else Refused(ReplayDiffers);
    }
  }
}
