/** The protocol run by the real simulator, over any text encoding that round-trips snapshots. */
module ScenarioEngine {
  import opened Wrappers
  import opened Ordered
  import opened Snapshots
  import opened Validation
  import opened Simulation
  import opened Protocol
  import opened ProtocolInvariant
  import opened ProtocolHistory
  import Render

  datatype Codec = Codec(
    encodeSnapshot: Snapshot -> string, decodeSnapshot: string -> Option<Snapshot>, hash: string -> string,
    encodeAffected: seq<AffectedService> -> string, encodeBroken: seq<BrokenPath> -> string,
    encodeEvidence: seq<TimepointEvidence> -> string)
  {
    ghost predicate RoundTrips() {
      forall s :: decodeSnapshot(encodeSnapshot(s)) == Some(s)
    }

    function Encode(r: SimulationResult): Results {
      Results(encodeAffected(r.affected), encodeBroken(r.broken), encodeEvidence(r.evidence),
              Render.ExplanationText(r.explanation))
    }
  }

  /** The stored texts are those of the simulation, column by column. */
  ghost predicate Encodes(codec: Codec, stored: Results, r: SimulationResult) {
    && stored.affected == codec.encodeAffected(r.affected) && stored.broken == codec.encodeBroken(r.broken)
    && stored.evidence == codec.encodeEvidence(r.evidence)
    && stored.explanation == Render.ExplanationText(r.explanation)
  }

  /** Decodes a frozen text and simulates it. */
  ghost function RunFrozen(codec: Codec, input: string): Result<Results, Refusal> {
    match codec.decodeSnapshot(input)
    case None => Err(SnapshotUndecodable)
    case Some(snapshot) =>
      if WellFormed(snapshot) then Ok(codec.Encode(SimulationOf(snapshot))) else Err(SimulationFailed)
  }

  ghost function EngineOf(codec: Codec): Engine {
    Engine((s: Snapshot) => WellFormed(s), codec.encodeSnapshot, codec.hash, (input: string) => RunFrozen(codec, input))
  }

  /** The freeze-time check suffices: what is accepted when it is frozen can be simulated from its frozen text ever
      after, always with the same results. */
  lemma EngineIsCoherent(codec: Codec)
    requires codec.RoundTrips()
    ensures EngineOf(codec).Coherent()
    ensures forall s :: WellFormed(s) ==>
      EngineOf(codec).run(EngineOf(codec).freeze(s)) == Ok(codec.Encode(SimulationOf(s)))
  {
    forall s | WellFormed(s) ensures RunFrozen(codec, codec.encodeSnapshot(s)) == Ok(codec.Encode(SimulationOf(s))) {
      assert codec.decodeSnapshot(codec.encodeSnapshot(s)) == Some(s);
    }
  }

  // ---------- runs of the service ----------

  /** A run of the service: it starts as the program does, and what it freezes comes from tables, whose identifiers
      are distinct. */
  ghost predicate ServiceRun(codec: Codec, states: seq<System>, events: seq<Event>) {
    && codec.RoundTrips() && IsRun(EngineOf(codec), states, events)
    && Starts(EngineOf(codec), states[0]) && TextsOk(codec, states[0].db.rows)
    && forall i :: 0 <= i < |events| ==> FromTables(events[i])
  }

  ghost predicate FromTables(e: Event) {
    e.Create? ==> DistinctBy(e.snapshot.services, ServiceId)
  }

  lemma RunBegins(codec: Codec, sys: System)
    requires codec.RoundTrips() && Starts(EngineOf(codec), sys) && TextsOk(codec, sys.db.rows)
    ensures ServiceRun(codec, [sys], [])
  {
  }

  lemma EmptyBegins(codec: Codec)
    requires codec.RoundTrips()
    ensures ServiceRun(codec, [System(Database(map[], []), map[])], [])
  {
  }

  lemma SeededBegins(codec: Codec, id: nat, row: Row)
    requires codec.RoundTrips() && SeededRow(EngineOf(codec), row) && DistinctServices(codec, row.input)
    ensures ServiceRun(codec, [System(Database(Single(id, row), []), map[])], [])
  {
    StartsSeeded(EngineOf(codec), id, row);
    RunBegins(codec, System(Database(Single(id, row), []), map[]));
  }

  lemma RunExtends(codec: Codec, states: seq<System>, events: seq<Event>, e: Event)
    requires ServiceRun(codec, states, events) && Allowed(states[|events|], e) && FromTables(e)
    ensures ServiceRun(codec, states + [Step(EngineOf(codec), states[|events|], e).0], events + [e])
  {
    var engine := EngineOf(codec);
    var longer, more := states + [Step(engine, states[|events|], e).0], events + [e];
    forall i | 0 <= i < |more| ensures StepsTo(engine, longer[i], more[i], longer[i + 1]) {
      if i < |events| {
        assert StepsTo(engine, states[i], events[i], states[i + 1]);
      }
    }
  }

  /** Every stored frozen text decodes to services with distinct identifiers. */
  ghost predicate TextsOk(codec: Codec, rows: map<nat, Row>) {
    forall id :: id in rows ==> DistinctServices(codec, rows[id].input)
  }

  ghost predicate DistinctServices(codec: Codec, input: string) {
    codec.decodeSnapshot(input).Some? ==> DistinctBy(codec.decodeSnapshot(input).value.services, ServiceId)
  }

  lemma OnlyCreationsAddRows(engine: Engine, sys: System, e: Event, id: nat)
    requires id in Step(engine, sys, e).0.db.rows && id !in sys.db.rows
    ensures e.Create? && Step(engine, sys, e).0.db.rows[id].input == engine.freeze(e.snapshot)
  {
  }

  lemma StepKeepsTexts(codec: Codec, sys: System, e: Event)
    requires codec.RoundTrips() && TextsOk(codec, sys.db.rows) && FromTables(e)
    requires RowsPersist(sys.db.rows, Step(EngineOf(codec), sys, e).0.db.rows)
    ensures TextsOk(codec, Step(EngineOf(codec), sys, e).0.db.rows)
  {
    var rows := Step(EngineOf(codec), sys, e).0.db.rows;
    forall id | id in rows ensures DistinctServices(codec, rows[id].input) {
      if id !in sys.db.rows {
        OnlyCreationsAddRows(EngineOf(codec), sys, e, id);
        assert codec.decodeSnapshot(codec.encodeSnapshot(e.snapshot)) == Some(e.snapshot);
      }
    }
  }

  /** Every state of every run of the service satisfies the invariant, and all its frozen texts have distinct
      identifiers. */
  lemma {:induction false} ServiceRunKeeps(codec: Codec, states: seq<System>, events: seq<Event>, n: nat)
    requires ServiceRun(codec, states, events) && n < |states|
    ensures Inv(EngineOf(codec), states[n]) && TextsOk(codec, states[n].db.rows)
  {
    EngineIsCoherent(codec);
    StartsSatisfyInv(EngineOf(codec), states[0]);
    if n > 0 {
      var i := n - 1;
      ServiceRunKeeps(codec, states, events, i);
      assert StepsTo(EngineOf(codec), states[i], events[i], states[i + 1]);
      StepKeepsInv(EngineOf(codec), states[i], events[i]);
      StepKeepsTexts(codec, states[i], events[i]);
    }
  }

  /** What looking up a key relies on. */
  lemma LookupReliesOn(codec: Codec, states: seq<System>, events: seq<Event>, n: nat)
    requires ServiceRun(codec, states, events) && n < |states|
    ensures KeysUnique(states[n].db.rows)
    ensures forall t :: t in states[n].pending ==> states[n].pending[t].id in states[n].db.rows
  {
    ServiceRunKeeps(codec, states, events, n);
  }

  /** End to end: whatever happens after a snapshot was frozen into a scenario, in any state of any run in which the
      scenario has left draft, it stores the simulation of that very snapshot. */
  lemma StoredResultsAreTheSimulation(codec: Codec, states: seq<System>, events: seq<Event>, n: nat, m: nat, id: nat)
    requires codec.RoundTrips() && IsRun(EngineOf(codec), states, events) && Inv(EngineOf(codec), states[0])
    requires n < m < |states| && events[n].Create? && events[n].newId == id
    requires Step(EngineOf(codec), states[n], events[n]).1 == Created(id)
    ensures id in states[m].db.rows && states[m].db.rows[id].input == codec.encodeSnapshot(events[n].snapshot)
    ensures states[m].db.rows[id].state != Draft ==>
      Encodes(codec, states[m].db.rows[id].results, SimulationOf(events[n].snapshot))
  {
    var engine, snapshot := EngineOf(codec), events[n].snapshot;
    EngineIsCoherent(codec);
    assert StepsTo(engine, states[n], events[n], states[n + 1]);
    assert states[n + 1].db.rows[id] == DraftOf(engine, snapshot, events[n].actor);
    assert WellFormed(snapshot);
    TerminalAndFrozen(engine, states, events, n + 1, m, id);
    ReplayAgreesWithHistory(engine, states, events, m);
    assert engine.run(engine.freeze(snapshot)) == Ok(codec.Encode(SimulationOf(snapshot)));
  }
}
