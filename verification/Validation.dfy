/** Which snapshots a scenario may be created from, and simulated on. */
module Validation {
  import opened Wrappers
  import opened Graphs
  import opened Snapshots
  import CycleSearch

  datatype ValidationError =
    | AnchorsNotDistinct
    | EmptyOverlap
    | SimulationTimeMissing
    | AnchorsMissing
    | CandidateMissing(chainId: nat)
    | DependencyCycle(serviceId: nat)

  ghost predicate HasAnchor(snapshot: Snapshot, id: nat) {
    exists a :: a in snapshot.anchors && a.id == id
  }

  ghost predicate HasChain(snapshot: Snapshot, id: nat) {
    exists c :: c in snapshot.chains && c.id == id
  }

  ghost predicate AnchorsDistinct(c: ScenarioConfig) {
    c.oldAnchorId != 0 && c.newAnchorId != 0 && c.oldAnchorId != c.newAnchorId
  }

  ghost predicate AnchorsPresent(s: Snapshot) {
    HasAnchor(s, s.config.oldAnchorId) && HasAnchor(s, s.config.newAnchorId)
  }

  ghost predicate CandidatesPresent(s: Snapshot, n: nat)
    requires n <= |s.config.candidateChainIds|
  {
    forall i :: 0 <= i < n ==> HasChain(s, s.config.candidateChainIds[i])
  }

  ghost predicate WellFormed(s: Snapshot) {
    && AnchorsDistinct(s.config)
    && s.config.overlapStart < s.config.overlapEnd
    && s.config.simulationTime != ZERO_TIME
    && AnchorsPresent(s)
    && CandidatesPresent(s, |s.config.candidateChainIds|)
    && Acyclic(DependencyGraph(s.services))
  }

  /** The error names the first requirement, in the order they are checked, that the snapshot fails. */
  ghost predicate Blames(s: Snapshot, e: ValidationError) {
    var c := s.config;
    match e
    case AnchorsNotDistinct => !AnchorsDistinct(c)
    case EmptyOverlap => AnchorsDistinct(c) && c.overlapStart >= c.overlapEnd
    case SimulationTimeMissing =>
      AnchorsDistinct(c) && c.overlapStart < c.overlapEnd && c.simulationTime == ZERO_TIME
    case AnchorsMissing =>
      && AnchorsDistinct(c) && c.overlapStart < c.overlapEnd && c.simulationTime != ZERO_TIME
      && !AnchorsPresent(s)
    case CandidateMissing(id) =>
      && AnchorsDistinct(c) && c.overlapStart < c.overlapEnd && c.simulationTime != ZERO_TIME
      && AnchorsPresent(s)
      && exists i :: 0 <= i < |c.candidateChainIds| && c.candidateChainIds[i] == id
                     && CandidatesPresent(s, i) && !HasChain(s, id)
    case DependencyCycle(id) =>
      && AnchorsDistinct(c) && c.overlapStart < c.overlapEnd && c.simulationTime != ZERO_TIME
      && AnchorsPresent(s) && CandidatesPresent(s, |c.candidateChainIds|)
      && OnCycle(DependencyGraph(s.services), id)
  }

  lemma GraphOfPrefix(services: seq<ServiceSnapshot>, i: nat)
    requires i < |services|
    ensures DependencyGraph(services[..i + 1])
            == DependencyGraph(services[..i])[services[i].id := services[i].dependencyIds]
  {
    var shorter, longer := services[..i], services[..i + 1];
    assert longer[..|longer| - 1] == shorter;
    assert ServicesById(longer) == ServicesById(shorter)[services[i].id := services[i]];
  }

  /** `detectCycle` on the services of a snapshot. */
  method DetectCycle(services: seq<ServiceSnapshot>) returns (err: Option<nat>)
    ensures err.None? <==> Acyclic(DependencyGraph(services))
    ensures err.Some? ==> OnCycle(DependencyGraph(services), err.value)
  {
    var edges: Graph := map[];
    for i := 0 to |services|
      invariant edges == DependencyGraph(services[..i])
    {
      GraphOfPrefix(services, i);
      edges := edges[services[i].id := services[i].dependencyIds];
    }
    assert services[..|services|] == services;
    err := CycleSearch.DetectCycle(edges);
  }

  method ValidateSnapshot(snapshot: Snapshot) returns (err: Option<ValidationError>)
    ensures err.None? <==> WellFormed(snapshot)
    ensures err.Some? ==> Blames(snapshot, err.value)
  {
    var config := snapshot.config;
    if config.oldAnchorId == 0 || config.newAnchorId == 0 || config.oldAnchorId == config.newAnchorId {
      return Some(AnchorsNotDistinct);
    }
    if !(config.overlapStart < config.overlapEnd) {
      return Some(EmptyOverlap);
    }
    if config.simulationTime == ZERO_TIME {
      return Some(SimulationTimeMissing);
    }
    var anchorSeen: map<nat, bool> := map[];
    for i := 0 to |snapshot.anchors|
      invariant forall id :: id in anchorSeen <==> exists j :: 0 <= j < i && snapshot.anchors[j].id == id
    {
      anchorSeen := anchorSeen[snapshot.anchors[i].id := true];
    }
    if config.oldAnchorId !in anchorSeen || config.newAnchorId !in anchorSeen {
      return Some(AnchorsMissing);
    }
    var chainSeen: map<nat, bool> := map[];
    for i := 0 to |snapshot.chains|
      invariant forall id :: id in chainSeen <==> exists j :: 0 <= j < i && snapshot.chains[j].id == id
    {
      chainSeen := chainSeen[snapshot.chains[i].id := true];
    }
    assert forall id :: id in chainSeen <==> HasChain(snapshot, id);
    for i := 0 to |config.candidateChainIds|
      invariant CandidatesPresent(snapshot, i)
    {
      if config.candidateChainIds[i] !in chainSeen {
        return Some(CandidateMissing(config.candidateChainIds[i]));
      }
    }
    var cycle := DetectCycle(snapshot.services);
    if cycle.Some? {
      return Some(DependencyCycle(cycle.value));
    }
    return None;
  }
}
