/** From a request to its row: what a created scenario stores, and reports, about the tables it was created from. */
module CreatedScenarios {
  import opened Wrappers
  import opened Graphs
  import opened Snapshots
  import opened Validation
  import opened Freezing
  import opened Direct
  import opened Simulation
  import opened Impact
  import opened Evidence
  import opened Protocol
  import opened ScenarioEngine
  import ServiceStore

  /** The broken path reported at `i` is a dependency path of the store, named code by code; if it ends in a service
      that is called absent or inactive, that service is in the store, and inactive. */
  ghost predicate NamesStorePath(rows: ServiceStore.Rows, snapshot: Snapshot, i: nat)
    requires i < |SimulationOf(snapshot).broken|
  {
    var a, codes := SimulationOf(snapshot).affected[i], SimulationOf(snapshot).broken[i].serviceCodes;
    var p := Outcome(snapshot, a.at, a.serviceId).path;
    && Walk(ServiceStore.StoreGraph(rows), p) && p[0] == a.serviceId && |codes| == |p|
    && (forall k :: 0 <= k < |p| ==> p[k] in rows && codes[k] == rows[p[k]].code)
    && (RootReason(a.reason) == AbsentOrInactive ==> rows[p[|p| - 1]].state.Inactive?)
  }

  lemma ReportNamesStorePaths(snapshot: Snapshot, config: ScenarioConfig, tables: Tables, i: nat)
    requires ServiceStore.ValidStore(tables.services) && FreezesTables(snapshot, config, tables) && WellFormed(snapshot)
    requires i < |SimulationOf(snapshot).broken|
    ensures NamesStorePath(tables.services, snapshot, i)
  {
    FrozenFromValidStore(snapshot, config, tables);
    FrozenServicesById(snapshot.services, tables.services);
    var a := SimulationOf(snapshot).affected[i];
    var p := Outcome(snapshot, a.at, a.serviceId).path;
    ReportedPathIsNamed(snapshot, i);
    assert Walk(DependencyGraph(snapshot.services), p) && p[0] == a.serviceId by {
      ReportedPathIsWitness(snapshot, i);
    }
    if RootReason(a.reason) == AbsentOrInactive {
      AbsentMeansInactive(snapshot, i);
    }
  }

  // ---------- the evidence in terms of rows ----------

  ghost predicate OnPage(listed: seq<ChainSnapshot>, c: ChainSnapshot) {
    exists i :: 0 <= i < |listed| && i < 200 && listed[i] == c
  }

  /** Chain `c` of the first page carries the service of a row at instant `t`, under the request. */
  ghost predicate ServesRow(config: ScenarioConfig, listed: seq<ChainSnapshot>, row: ServiceStore.Service, t: int,
                            c: ChainSnapshot) {
    && OnPage(listed, c) && c.id > 0 && (c.id == row.chainId || c.id in config.candidateChainIds)
    && (exists own :: OnPage(listed, own) && own.id == row.chainId && own.leafSubject == c.leafSubject)
    && (c.state.Imported? || c.state.Validated?) && c.validFrom <= t < c.validTo && c.validationValid
    && InForce(config, t, c.anchorId) && c.anchorId > 0 && c.anchorId in row.trustRefs
  }

  ghost predicate RowServed(config: ScenarioConfig, listed: seq<ChainSnapshot>, row: ServiceStore.Service, t: int) {
    exists c :: ServesRow(config, listed, row, t, c)
  }

  lemma PageLookup(snapshot: Snapshot, config: ScenarioConfig, tables: Tables, c: ChainSnapshot)
    requires ValidTables(tables) && HoldsColumns(snapshot, config, tables)
    ensures OnPage(tables.listed, c) <==> c.id in ChainsById(snapshot.chains) && ChainsById(snapshot.chains)[c.id] == c
  {
    ChainsByIdSound(snapshot.chains);
    if OnPage(tables.listed, c) {
      var d := ChainsById(snapshot.chains)[c.id];
      assert d in snapshot.chains;
      var i :| 0 <= i < |tables.listed| && i < 200 && tables.listed[i] == c;
      var k :| 0 <= k < |tables.listed| && k < 200 && tables.listed[k] == d;
      assert ChainId(tables.listed[i]) == ChainId(tables.listed[k]);
    }
  }

  lemma ServesExactlyRow(snapshot: Snapshot, config: ScenarioConfig, tables: Tables, s: ServiceSnapshot, t: int,
                         c: ChainSnapshot)
    requires ValidTables(tables) && HoldsColumns(snapshot, config, tables) && s in snapshot.services
    requires c.id in ChainsById(snapshot.chains) && ChainsById(snapshot.chains)[c.id] == c
    ensures s.id in tables.services
    ensures Serves(snapshot, s, t, c.id) <==> ServesRow(config, tables.listed, tables.services[s.id], t, c)
  {
    var row, chains := tables.services[s.id], ChainsById(snapshot.chains);
    ChainsByIdSound(snapshot.chains);
    PageLookup(snapshot, config, tables, c);
    assert HoldsRow(s, row);
    if s.chainId in chains {
      PageLookup(snapshot, config, tables, chains[s.chainId]);
    }
    forall own | OnPage(tables.listed, own) && own.id == row.chainId
      ensures s.chainId in chains && chains[s.chainId] == own
    {
      PageLookup(snapshot, config, tables, own);
    }
  }

  lemma ServedExactlyRow(snapshot: Snapshot, config: ScenarioConfig, tables: Tables, s: ServiceSnapshot, t: int)
    requires ValidTables(tables) && HoldsColumns(snapshot, config, tables) && s in snapshot.services
    ensures s.id in tables.services
    ensures Served(snapshot, s, t) <==> RowServed(config, tables.listed, tables.services[s.id], t)
  {
    ChainsByIdSound(snapshot.chains);
    if id :| Serves(snapshot, s, t, id) {
      ServesExactlyRow(snapshot, config, tables, s, t, ChainsById(snapshot.chains)[id]);
    }
    if c :| ServesRow(config, tables.listed, tables.services[s.id], t, c) {
      PageLookup(snapshot, config, tables, c);
      ServesExactlyRow(snapshot, config, tables, s, t, c);
    }
  }

  /** The entry tells the truth about the row: its code, the least chain of the first page that serves it, and the
      anchor of that chain. */
  ghost predicate TellsRow(config: ScenarioConfig, tables: Tables, t: int, e: ServiceEvidence) {
    && e.serviceId in tables.services
    && var row := tables.services[e.serviceId];
    && row.state.Active? && e.code == row.code
    && if RowServed(config, tables.listed, row, t) then
         exists c :: && ServesRow(config, tables.listed, row, t, c)
                     && e.selectedChain == c.id && e.selectedAnchor == c.anchorId
                     && forall d :: ServesRow(config, tables.listed, row, t, d) ==> c.id <= d.id
       else e.selectedChain == 0 && e.selectedAnchor == 0
  }

  lemma EntryTellsRow(snapshot: Snapshot, config: ScenarioConfig, tables: Tables, s: ServiceSnapshot, t: int,
                      e: ServiceEvidence)
    requires ValidTables(tables) && HoldsColumns(snapshot, config, tables) && TruthfulEntry(snapshot, s, t, e)
    ensures TellsRow(config, tables, t, e)
  {
    var row, chains := tables.services[s.id], ChainsById(snapshot.chains);
    assert HoldsRow(s, row);
    ServedExactlyRow(snapshot, config, tables, s, t);
    ChainsByIdSound(snapshot.chains);
    if Served(snapshot, s, t) {
      var c := chains[e.selectedChain];
      ServesExactlyRow(snapshot, config, tables, s, t, c);
      forall d | ServesRow(config, tables.listed, row, t, d) ensures c.id <= d.id {
        PageLookup(snapshot, config, tables, d);
        ServesExactlyRow(snapshot, config, tables, s, t, d);
      }
    }
  }

  /** Everything that row `id` depends on in the store is active and served. */
  ghost predicate ClosureServed(config: ScenarioConfig, tables: Tables, id: nat, t: int) {
    forall v :: Reaches(ServiceStore.StoreGraph(tables.services), id, v) ==>
      && v in tables.services && tables.services[v].state.Active?
      && RowServed(config, tables.listed, tables.services[v], t)
  }

  lemma ReachableExactlyRows(snapshot: Snapshot, config: ScenarioConfig, tables: Tables, id: nat, t: int)
    requires ValidTables(tables) && HoldsColumns(snapshot, config, tables)
    requires DependencyGraph(snapshot.services) == ServiceStore.StoreGraph(tables.services)
    requires Acyclic(ServiceStore.StoreGraph(tables.services))
    ensures ReachableAt(snapshot, id, t) <==> ClosureServed(config, tables, id, t)
  {
    ReachableExactly(snapshot, id, t);
    forall v ensures ActiveAndServed(snapshot, v, t) <==>
      && v in tables.services && tables.services[v].state.Active?
      && RowServed(config, tables.listed, tables.services[v], t)
    {
      ActiveServedRow(snapshot, config, tables, v, t);
    }
  }

  lemma ActiveServedRow(snapshot: Snapshot, config: ScenarioConfig, tables: Tables, v: nat, t: int)
    requires ValidTables(tables) && HoldsColumns(snapshot, config, tables)
    ensures ActiveAndServed(snapshot, v, t) <==>
      && v in tables.services && tables.services[v].state.Active?
      && RowServed(config, tables.listed, tables.services[v], t)
  {
    forall s | s in snapshot.services && s.id == v
      ensures v in tables.services && HoldsRow(s, tables.services[v])
      ensures Served(snapshot, s, t) <==> RowServed(config, tables.listed, tables.services[v], t)
    {
      ServedExactlyRow(snapshot, config, tables, s, t);
    }
  }

  /** Every entry of the simulation tells the truth about its row, and calls it reachable exactly when everything it
      depends on in the store is active and served. */
  ghost predicate EvidenceTellsOfRows(snapshot: Snapshot, config: ScenarioConfig, tables: Tables) {
    var evidence := SimulationOf(snapshot).evidence;
    forall k, j :: 0 <= k < |evidence| && 0 <= j < |evidence[k].services| ==>
      var t, e := evidence[k].at, evidence[k].services[j];
      TellsRow(config, tables, t, e) && (e.reachable <==> ClosureServed(config, tables, e.serviceId, t))
  }

  lemma SimulationTellsOfRows(snapshot: Snapshot, config: ScenarioConfig, tables: Tables)
    requires ServiceStore.ValidStore(tables.services) && ValidTables(tables) && FreezesTables(snapshot, config, tables)
    ensures EvidenceTellsOfRows(snapshot, config, tables)
  {
    FrozenFromValidStore(snapshot, config, tables);
    FrozenColumns(snapshot, config, tables);
    forall k, j | 0 <= k < |SimulationOf(snapshot).evidence| && 0 <= j < |SimulationOf(snapshot).evidence[k].services|
      ensures var t, e := SimulationOf(snapshot).evidence[k].at, SimulationOf(snapshot).evidence[k].services[j];
        TellsRow(config, tables, t, e) && (e.reachable <==> ClosureServed(config, tables, e.serviceId, t))
    {
      var t, e := SimulationOf(snapshot).evidence[k].at, SimulationOf(snapshot).evidence[k].services[j];
      EntriesAreTruthful(snapshot, k, j);
      var s :| TruthfulEntry(snapshot, s, t, e);
      EntryTellsRow(snapshot, config, tables, s, t, e);
      ReachableExactlyRows(snapshot, config, tables, s.id, t);
    }
  }

  // ---------- from request to row ----------

  /** The row stores the frozen tables, decodes to them, and beyond draft stores their simulation. */
  ghost predicate HoldsFrozen(codec: Codec, row: Row, snapshot: Snapshot) {
    && row.input == codec.encodeSnapshot(snapshot) && codec.decodeSnapshot(row.input) == Some(snapshot)
    && (row.state != Draft ==> Encodes(codec, row.results, SimulationOf(snapshot)))
  }

  /** End to end: whatever happens after a request was frozen with the tables of a valid store, the scenario holds
      that frozen input, beyond draft it holds the results of simulating it, every entry of these results tells the
      truth about the rows and chains that the tables had then, and every broken path is one of the store. */
  lemma CreatedScenarioTellsOfItsTables(codec: Codec, states: seq<System>, events: seq<Event>, n: nat, m: nat, id: nat,
                                        config: ScenarioConfig, tables: Tables)
    requires ServiceRun(codec, states, events) && n < m < |states|
    requires events[n].Create? && events[n].newId == id && FreezesTables(events[n].snapshot, config, tables)
    requires Step(EngineOf(codec), states[n], events[n]).1 == Created(id)
    requires ServiceStore.ValidStore(tables.services) && ValidTables(tables)
    ensures id in states[m].db.rows && HoldsFrozen(codec, states[m].db.rows[id], events[n].snapshot)
    ensures HoldsColumns(events[n].snapshot, config, tables)
    ensures EvidenceTellsOfRows(events[n].snapshot, config, tables)
    ensures forall i :: 0 <= i < |SimulationOf(events[n].snapshot).broken| ==>
      NamesStorePath(tables.services, events[n].snapshot, i)
  {
    var snapshot := events[n].snapshot;
    ServiceRunKeeps(codec, states, events, 0);
    StoredResultsAreTheSimulation(codec, states, events, n, m, id);
    CreatedFromAccepted(codec, states[n], events[n]);
    FrozenColumns(snapshot, config, tables);
    SimulationTellsOfRows(snapshot, config, tables);
    forall i | 0 <= i < |SimulationOf(snapshot).broken| ensures NamesStorePath(tables.services, snapshot, i) {
      ReportNamesStorePaths(snapshot, config, tables, i);
    }
  }

  lemma CreatedFromAccepted(codec: Codec, sys: System, e: Event)
    requires e.Create? && Step(EngineOf(codec), sys, e).1 == Created(e.newId)
    ensures WellFormed(e.snapshot)
  {
  }
}
