/** Freezing the tables into the snapshot of a new scenario. */
module Freezing {
  import opened Wrappers
  import opened Ordered
  import opened Graphs
  import opened Snapshots
  import opened Validation
  import ServiceStore

  /** The chain listing is read one page deep. */
  const PAGE_SIZE := 200

  datatype FreezeError =
    | InvalidRequest
    | SameAnchor
    | AnchorNotFound
    | CandidateNotFound
    | InvalidInput(reason: ValidationError)

  /** The tables that a request is frozen with: anchors by identifier, the listing of chains, and the service table. */
  datatype Tables = Tables(anchors: map<nat, AnchorSnapshot>, listed: seq<ChainSnapshot>, services: ServiceStore.Rows)

  /** Identifiers are primary keys. */
  ghost predicate ValidTables(tables: Tables) {
    && (forall id :: id in tables.anchors ==> tables.anchors[id].id == id)
    && DistinctBy(tables.listed, ChainId)
  }

  /** The chains that are frozen: the first page of the listing. */
  function FirstPage(listed: seq<ChainSnapshot>): seq<ChainSnapshot> {
    if |listed| > PAGE_SIZE then listed[..PAGE_SIZE] else listed
  }

  function Frozen(id: nat, row: ServiceStore.Service): ServiceSnapshot {
    ServiceSnapshot(id, row.code, row.chainId, CanonicalIds(row.trustRefs), CanonicalIds(row.dependencies),
                    row.criticality, row.state)
  }

  /** `services` are the rows of the table, each once, in some order. */
  ghost predicate ListsRows(services: seq<ServiceSnapshot>, rows: ServiceStore.Rows) {
    && DistinctBy(services, ServiceId)
    && (forall s :: s in services ==> s.id in rows && s == Frozen(s.id, rows[s.id]))
    && forall id :: id in rows ==> Frozen(id, rows[id]) in services
  }

  ghost predicate Holds(chains: seq<ChainSnapshot>, id: nat) {
    exists c :: c in chains && c.id == id
  }

  ghost predicate HoldsAll(chains: seq<ChainSnapshot>, ids: seq<nat>) {
    forall id :: id in ids ==> Holds(chains, id)
  }

  // ---------- the frozen graph is the graph of the store ----------

  lemma FrozenServicesById(r: seq<ServiceSnapshot>, rows: ServiceStore.Rows)
    requires ListsRows(r, rows)
    ensures forall id :: id in ServicesById(r) <==> id in rows
    ensures forall id :: id in rows ==> ServicesById(r)[id] == Frozen(id, rows[id])
  {
    ServicesByIdSound(r);
    forall id | id in rows ensures id in ServicesById(r) && ServicesById(r)[id] == Frozen(id, rows[id]) {
      ServicesByIdExact(r, Frozen(id, rows[id]));
    }
  }

  lemma FrozenGraphIsStoreGraph(r: seq<ServiceSnapshot>, rows: ServiceStore.Rows)
    requires ListsRows(r, rows)
    ensures DependencyGraph(r) == ServiceStore.StoreGraph(rows)
  {
    FrozenServicesById(r, rows);
  }

  lemma NormalisedRowsAreRows(services: seq<ServiceSnapshot>, rows: ServiceStore.Rows)
    requires ListsRows(services, rows)
    ensures NormalisedAll(services) == services
  {
    forall i | 0 <= i < |services| ensures Normalised(services[i]) == services[i] {
      var s := services[i];
      assert s in services;
      CanonicalIdsCharacterised(s.trustAnchorIds, s.trustAnchorIds);
      CanonicalIdsCharacterised(s.dependencyIds, s.dependencyIds);
    }
  }

  // ---------- the method ----------

  method AllServices(rows: ServiceStore.Rows) returns (services: seq<ServiceSnapshot>)
    ensures ListsRows(services, rows)
  {
    services := [];
    var remaining := rows.Keys;
    while remaining != {}
      invariant remaining <= rows.Keys
      invariant DistinctBy(services, ServiceId)
      invariant forall s :: s in services ==> s.id in rows && s.id !in remaining && s == Frozen(s.id, rows[s.id])
      invariant forall id :: id in rows && id !in remaining ==> Frozen(id, rows[id]) in services
    {
      var id :| id in remaining;
      var trust := SortedUnique(rows[id].trustRefs);
      var dependencies := SortedUnique(rows[id].dependencies);
      var row := rows[id];
      var s := ServiceSnapshot(id, row.code, row.chainId, trust, dependencies, row.criticality, row.state);
      assert forall i :: 0 <= i < |services| ==> services[i] in services && services[i].id != id;
      services := services + [s];
      remaining := remaining - {id};
    }
  }

  predicate ValidRequest(config: ScenarioConfig) {
    && 3 <= |config.name| <= 180
    && config.oldAnchorId > 0 && config.newAnchorId > 0
    && config.overlapStart != ZERO_TIME && config.overlapEnd != ZERO_TIME && config.simulationTime != ZERO_TIME
    && 1 <= |config.candidateChainIds| <= 32 && ServiceStore.AllPositive(config.candidateChainIds)
  }

  /** The first objection to a request before anything is frozen. */
  ghost function RequestError(config: ScenarioConfig, tables: Tables): Option<FreezeError> {
    if !ValidRequest(config) then Some(InvalidRequest)
    else if config.oldAnchorId == config.newAnchorId then Some(SameAnchor)
    else if config.oldAnchorId !in tables.anchors || config.newAnchorId !in tables.anchors then Some(AnchorNotFound)
    else if !HoldsAll(tables.listed, CanonicalIds(config.candidateChainIds)) then Some(CandidateNotFound)
    else None
  }

  /** A request whose references all exist is accepted exactly when its interval is not empty, the store's graph has
      no cycle and every candidate is on the first page. */
  ghost predicate Freezable(config: ScenarioConfig, tables: Tables) {
    && RequestError(config, tables).None?
    && config.overlapStart < config.overlapEnd
    && HoldsAll(FirstPage(tables.listed), CanonicalIds(config.candidateChainIds))
    && Acyclic(ServiceStore.StoreGraph(tables.services))
  }

  ghost predicate ProperRequest(config: ScenarioConfig) {
    && 3 <= |config.name| <= 180 && config.oldAnchorId > 0 && config.newAnchorId > 0
    && config.overlapStart != 0 && config.overlapEnd != 0 && config.simulationTime != 0
    && 1 <= |config.candidateChainIds| <= 32 && forall id :: id in config.candidateChainIds ==> id > 0
  }

  /** A chain with this identifier is among the first `n` of the listing. */
  ghost predicate AmongFirst(listed: seq<ChainSnapshot>, n: nat, id: nat) {
    exists i :: 0 <= i < |listed| && i < n && listed[i].id == id
  }

  lemma HoldsExactly(listed: seq<ChainSnapshot>, id: nat)
    ensures Holds(listed, id) <==> AmongFirst(listed, |listed|, id)
    ensures Holds(FirstPage(listed), id) <==> AmongFirst(listed, 200, id)
  {
    if c :| c in FirstPage(listed) && c.id == id {
      var i :| 0 <= i < |FirstPage(listed)| && FirstPage(listed)[i] == c;
    }
    if i :| 0 <= i < |listed| && i < 200 && listed[i].id == id {
      assert FirstPage(listed)[i] in FirstPage(listed);
    }
  }

  /** What a request is answered before anything is frozen, and whether it is frozen, in terms of its columns. */
  lemma RequestAnswers(config: ScenarioConfig, tables: Tables)
    ensures var err, proper := RequestError(config, tables), ProperRequest(config);
      var distinct := config.oldAnchorId != config.newAnchorId;
      var anchored := config.oldAnchorId in tables.anchors && config.newAnchorId in tables.anchors;
      var found := forall id :: id in config.candidateChainIds ==> AmongFirst(tables.listed, |tables.listed|, id);
      && (err == Some(InvalidRequest) <==> !proper)
      && (err == Some(SameAnchor) <==> proper && !distinct)
      && (err == Some(AnchorNotFound) <==> proper && distinct && !anchored)
      && (err == Some(CandidateNotFound) <==> proper && distinct && anchored && !found)
      && (err.None? <==> proper && distinct && anchored && found)
    ensures Freezable(config, tables) <==>
            && RequestError(config, tables).None? && config.overlapStart < config.overlapEnd
            && (forall id :: id in config.candidateChainIds ==> AmongFirst(tables.listed, 200, id))
            && Acyclic(ServiceStore.StoreGraph(tables.services))
  {
    var ids := config.candidateChainIds;
    assert ServiceStore.AllPositive(ids) <==> forall id :: id in ids ==> id > 0 by {
      if forall id :: id in ids ==> id > 0 {
        assert forall i :: 0 <= i < |ids| ==> ids[i] in ids;
      }
    }
    forall id ensures Holds(tables.listed, id) <==> AmongFirst(tables.listed, |tables.listed|, id)
              ensures Holds(FirstPage(tables.listed), id) <==> AmongFirst(tables.listed, 200, id) {
      HoldsExactly(tables.listed, id);
    }
  }

  /** `snapshot` is the request frozen together with the tables it was read from. */
  ghost predicate FreezesTables(snapshot: Snapshot, config: ScenarioConfig, tables: Tables) {
    && config.oldAnchorId in tables.anchors && config.newAnchorId in tables.anchors
    && exists services :: ListsRows(services, tables.services)
         && Freezes(snapshot, config, ChosenAnchors(config, tables), FirstPage(tables.listed), services)
  }

  function ChosenAnchors(config: ScenarioConfig, tables: Tables): seq<AnchorSnapshot>
    requires config.oldAnchorId in tables.anchors && config.newAnchorId in tables.anchors
  {
    [tables.anchors[config.oldAnchorId], tables.anchors[config.newAnchorId]]
  }

  /** The frozen service has the columns of the row. */
  ghost predicate HoldsRow(s: ServiceSnapshot, row: ServiceStore.Service) {
    && s.code == row.code && s.chainId == row.chainId && s.criticality == row.criticality && s.state == row.state
    && SamePositive(s.trustAnchorIds, row.trustRefs) && StrictlyAscending(s.trustAnchorIds)
    && SamePositive(s.dependencyIds, row.dependencies) && StrictlyAscending(s.dependencyIds)
  }

  ghost predicate HoldsRequest(c: ScenarioConfig, config: ScenarioConfig) {
    && c.name == config.name && c.oldAnchorId == config.oldAnchorId && c.newAnchorId == config.newAnchorId
    && c.overlapStart == config.overlapStart && c.overlapEnd == config.overlapEnd
    && c.simulationTime == config.simulationTime
    && SamePositive(c.candidateChainIds, config.candidateChainIds) && StrictlyAscending(c.candidateChainIds)
  }

  ghost predicate HoldsAnchors(anchors: seq<AnchorSnapshot>, config: ScenarioConfig, tables: Tables) {
    && config.oldAnchorId in tables.anchors && config.newAnchorId in tables.anchors
    && forall a :: a in anchors <==> a == tables.anchors[config.oldAnchorId] || a == tables.anchors[config.newAnchorId]
  }

  ghost predicate HoldsPage(chains: seq<ChainSnapshot>, listed: seq<ChainSnapshot>) {
    forall d :: d in chains <==> exists i :: 0 <= i < |listed| && i < 200 && listed[i] == d
  }

  ghost predicate HoldsRows(services: seq<ServiceSnapshot>, rows: ServiceStore.Rows) {
    && DistinctBy(services, ServiceId)
    && (forall id :: id in rows ==> exists s :: s in services && s.id == id)
    && (forall s :: s in services ==> s.id in rows && HoldsRow(s, rows[s.id]))
  }

  /** The snapshot holds, column by column, the request and the tables: every row of the service table once, the
      chains on the first page, and the two anchors of the request. */
  ghost predicate HoldsColumns(snapshot: Snapshot, config: ScenarioConfig, tables: Tables) {
    && HoldsRequest(snapshot.config, config) && HoldsAnchors(snapshot.anchors, config, tables)
    && HoldsPage(snapshot.chains, tables.listed) && HoldsRows(snapshot.services, tables.services)
  }

  lemma ListedRowsHeld(services: seq<ServiceSnapshot>, rows: ServiceStore.Rows)
    requires ListsRows(services, rows)
    ensures HoldsRows(services, rows)
  {
    forall id | id in rows ensures exists s :: s in services && s.id == id {
      assert Frozen(id, rows[id]) in services;
    }
  }

  lemma FirstPageHeld(chains: seq<ChainSnapshot>, listed: seq<ChainSnapshot>)
    requires SameElements(chains, FirstPage(listed))
    ensures HoldsPage(chains, listed)
  {
    forall d ensures d in chains <==> exists i :: 0 <= i < |listed| && i < 200 && listed[i] == d {
      if i :| 0 <= i < |listed| && i < 200 && listed[i] == d {
        assert FirstPage(listed)[i] == d;
      }
    }
  }

  lemma FrozenColumns(snapshot: Snapshot, config: ScenarioConfig, tables: Tables)
    requires FreezesTables(snapshot, config, tables)
    ensures HoldsColumns(snapshot, config, tables)
  {
    var services :| ListsRows(services, tables.services)
      && Freezes(snapshot, config, ChosenAnchors(config, tables), FirstPage(tables.listed), services);
    FrozenMembers(snapshot, config, tables, services);
    ListedRowsHeld(snapshot.services, tables.services);
    FirstPageHeld(snapshot.chains, tables.listed);
  }

  /** Reads the tables, freezes them with the request and validates the result. */
  method Freeze(config: ScenarioConfig, tables: Tables) returns (r: Result<Snapshot, FreezeError>)
    requires ValidTables(tables)
    ensures r.Ok? <==> Freezable(config, tables)
    ensures r.Ok? ==> WellFormed(r.value) && FreezesTables(r.value, config, tables)
    ensures r.Ok? ==> HoldsColumns(r.value, config, tables)
    ensures match RequestError(config, tables) case Some(e) => r == Err(e) case None => r.Ok? || r.error.InvalidInput?
  {
    if !ValidRequest(config) {
      return Err(InvalidRequest);
    }
    if config.oldAnchorId == config.newAnchorId {
      return Err(SameAnchor);
    }
    if config.oldAnchorId !in tables.anchors || config.newAnchorId !in tables.anchors {
      return Err(AnchorNotFound);
    }
    var candidates := SortedUnique(config.candidateChainIds);
    for i := 0 to |candidates|
      invariant forall j :: 0 <= j < i ==> Holds(tables.listed, candidates[j])
    {
      var found := Find(tables.listed, candidates[i]);
      if !found {
        return Err(CandidateNotFound);
      }
    }
    var services := AllServices(tables.services);
    var anchors := [tables.anchors[config.oldAnchorId], tables.anchors[config.newAnchorId]];
    var frozen := config.(candidateChainIds := candidates);
    var built := BuildSnapshot(frozen, anchors, FirstPage(tables.listed), services);
    BuiltExactly(config, tables, services, built);
    if built.Err? {
      return Err(InvalidInput(built.error));
    }
    FrozenColumns(built.value, config, tables);
    return Ok(built.value);
  }

  method Find(chains: seq<ChainSnapshot>, id: nat) returns (found: bool)
    ensures found <==> Holds(chains, id)
  {
    for i := 0 to |chains|
      invariant forall j :: 0 <= j < i ==> chains[j].id != id
    {
      if chains[i].id == id {
        return true;
      }
    }
    return false;
  }

  /** What `BuildSnapshot` answers for the given input. */
  ghost predicate Built(r: Result<Snapshot, ValidationError>, config: ScenarioConfig, anchors: seq<AnchorSnapshot>,
                        chains: seq<ChainSnapshot>, services: seq<ServiceSnapshot>) {
    exists s :: Freezes(s, config, anchors, chains, services)
                && if WellFormed(s) then r == Ok(s) else r.Err? && Blames(s, r.error)
  }

  method BuildSnapshot(config: ScenarioConfig, anchors: seq<AnchorSnapshot>, chains: seq<ChainSnapshot>,
                       services: seq<ServiceSnapshot>) returns (r: Result<Snapshot, ValidationError>)
    ensures Built(r, config, anchors, chains, services)
  {
    var a := new AnchorSnapshot[|anchors|](i requires 0 <= i < |anchors| => anchors[i]);
    var c := new ChainSnapshot[|chains|](i requires 0 <= i < |chains| => chains[i]);
    var s := new ServiceSnapshot[|services|](i requires 0 <= i < |services| => services[i]);
    assert a[..] == anchors && c[..] == chains && s[..] == services;
    var snapshot := NewSnapshot(config, a, c, s);
    var err := ValidateSnapshot(snapshot);
    if err.Some? {
      return Err(err.value);
    }
    return Ok(snapshot);
  }

  lemma BuiltExactly(config: ScenarioConfig, tables: Tables, services: seq<ServiceSnapshot>,
                     built: Result<Snapshot, ValidationError>)
    requires ValidTables(tables) && RequestError(config, tables).None? && ListsRows(services, tables.services)
    requires Built(built, config.(candidateChainIds := CanonicalIds(config.candidateChainIds)),
                   ChosenAnchors(config, tables), FirstPage(tables.listed), services)
    ensures built.Ok? <==> Freezable(config, tables)
    ensures built.Ok? ==> WellFormed(built.value) && FreezesTables(built.value, config, tables)
  {
    var candidates, pair := CanonicalIds(config.candidateChainIds), ChosenAnchors(config, tables);
    var frozen := config.(candidateChainIds := candidates);
    CanonicalIdsCharacterised(candidates, candidates);
    var s :| Freezes(s, frozen, pair, FirstPage(tables.listed), services)
             && if WellFormed(s) then built == Ok(s) else built.Err? && Blames(s, built.error);
    assert Freezes(s, config, pair, FirstPage(tables.listed), services);
    FrozenMembers(s, config, tables, services);
    FrozenWellFormed(s, frozen, pair, FirstPage(tables.listed), tables.services);
  }

  lemma FrozenMembers(snapshot: Snapshot, config: ScenarioConfig, tables: Tables, services: seq<ServiceSnapshot>)
    requires config.oldAnchorId in tables.anchors && config.newAnchorId in tables.anchors
    requires ListsRows(services, tables.services)
    requires Freezes(snapshot, config, ChosenAnchors(config, tables), FirstPage(tables.listed), services)
    ensures SameElements(snapshot.anchors, ChosenAnchors(config, tables))
    ensures SameElements(snapshot.chains, FirstPage(tables.listed)) && ListsRows(snapshot.services, tables.services)
  {
    SameMultisetSameElements(snapshot.anchors, ChosenAnchors(config, tables));
    SameMultisetSameElements(snapshot.chains, FirstPage(tables.listed));
    NormalisedRowsAreRows(services, tables.services);
  }

  lemma FrozenWellFormed(snapshot: Snapshot, config: ScenarioConfig, anchors: seq<AnchorSnapshot>,
                         chains: seq<ChainSnapshot>, rows: ServiceStore.Rows)
    requires snapshot.config == config && SameElements(snapshot.anchors, anchors)
             && SameElements(snapshot.chains, chains)
    requires ListsRows(snapshot.services, rows)
    requires |anchors| == 2 && anchors[0].id == config.oldAnchorId && anchors[1].id == config.newAnchorId
    requires config.oldAnchorId != config.newAnchorId && config.oldAnchorId > 0 && config.newAnchorId > 0
    ensures WellFormed(snapshot) <==>
            && config.overlapStart < config.overlapEnd && config.simulationTime != ZERO_TIME
            && HoldsAll(chains, config.candidateChainIds) && Acyclic(ServiceStore.StoreGraph(rows))
  {
    FrozenGraphIsStoreGraph(snapshot.services, rows);
    assert anchors[0] in anchors && anchors[1] in anchors;
    assert AnchorsPresent(snapshot);
    forall id ensures HasChain(snapshot, id) <==> Holds(chains, id) {}
    var ids := config.candidateChainIds;
    if CandidatesPresent(snapshot, |ids|) {
      forall id | id in ids ensures Holds(chains, id) {
        var i :| 0 <= i < |ids| && ids[i] == id;
        assert HasChain(snapshot, ids[i]);
      }
    }
    if HoldsAll(chains, ids) {
      forall i | 0 <= i < |ids| ensures HasChain(snapshot, ids[i]) {
        assert ids[i] in ids;
      }
    }
  }

  // ---------- consequences ----------

  /** Freezing the same tables for the same request again gives the same snapshot, however the rows are listed and the
      candidates ordered. */
  lemma FrozenOnce(r1: Snapshot, c1: ScenarioConfig, r2: Snapshot, c2: ScenarioConfig, tables: Tables)
    requires ValidTables(tables) && FreezesTables(r1, c1, tables) && FreezesTables(r2, c2, tables)
    requires c1.oldAnchorId != c1.newAnchorId
    requires c1.(candidateChainIds := c2.candidateChainIds) == c2
             && SameElements(c1.candidateChainIds, c2.candidateChainIds)
    ensures r1 == r2
  {
    var page, pair := FirstPage(tables.listed), ChosenAnchors(c1, tables);
    var s1 :| ListsRows(s1, tables.services) && Freezes(r1, c1, pair, page, s1);
    var s2 :| ListsRows(s2, tables.services) && Freezes(r2, c2, pair, page, s2);
    forall x | x in s1 || x in s2 ensures x in s1 && x in s2 && SameService(x, x) {
      assert x == Frozen(x.id, tables.services[x.id]);
    }
    FreezingIsCanonical(r1, c1, pair, page, s1, r2, c2, pair, page, s2);
  }

  lemma FrozenServicesDistinct(snapshot: Snapshot, config: ScenarioConfig, tables: Tables)
    requires FreezesTables(snapshot, config, tables)
    ensures DistinctBy(snapshot.services, ServiceId)
  {
  }

  /** What is frozen from a valid store has distinct identifiers and the store's graph, which is closed and acyclic. */
  lemma FrozenFromValidStore(snapshot: Snapshot, config: ScenarioConfig, tables: Tables)
    requires ServiceStore.ValidStore(tables.services) && FreezesTables(snapshot, config, tables)
    ensures ListsRows(snapshot.services, tables.services)
    ensures DependencyGraph(snapshot.services) == ServiceStore.StoreGraph(tables.services)
    ensures Closed(DependencyGraph(snapshot.services)) && Acyclic(DependencyGraph(snapshot.services))
  {
    var services :| ListsRows(services, tables.services)
      && Freezes(snapshot, config, ChosenAnchors(config, tables), FirstPage(tables.listed), services);
    FrozenMembers(snapshot, config, tables, services);
    FrozenGraphIsStoreGraph(snapshot.services, tables.services);
  }
}
