/** The simulation of a frozen scenario: every active service at every critical instant. */
module Simulation {
  import opened Wrappers
  import opened Ordered
  import opened Graphs
  import opened Snapshots
  import opened Validation
  import opened Direct
  import opened Propagation

  datatype AffectedService = AffectedService(serviceId: nat, code: string, criticality: string, at: int, reason: Reason)

  datatype BrokenPath = BrokenPath(at: int, serviceCodes: seq<string>, reason: Reason)

  datatype TimepointEvidence = TimepointEvidence(at: int, activeAnchorIds: seq<nat>, services: seq<ServiceEvidence>)

  datatype Explanation =
    | AllReachable
    | FailuresFound(failures: nat, paths: nat, beforeOverlap: bool, afterOverlap: bool)

  datatype SimulationResult = SimulationResult(
    affected: seq<AffectedService>, broken: seq<BrokenPath>, evidence: seq<TimepointEvidence>, explanation: Explanation)

  // ---------- the result as a function of the snapshot ----------

  /** Direct evidence for each active service. */
  ghost function DirectTable(services: seq<ServiceSnapshot>, config: ScenarioConfig, at: int,
                             chains: Chains): Evidences {
    if services == [] then map[]
    else
      var last := services[|services| - 1];
      var table := DirectTable(services[..|services| - 1], config, at, chains);
      if last.state.Active? then table[last.id := DirectEvidence(last, config, at, chains)] else table
  }

  ghost function EvidenceTable(snapshot: Snapshot, at: int): Evidences {
    DirectTable(snapshot.services, snapshot.config, at, ChainsById(snapshot.chains))
  }

  ghost function Outcome(snapshot: Snapshot, at: int, id: nat): Resolution {
    Resolve(EvidenceTable(snapshot, at), DependencyGraph(snapshot.services), id, {})
  }

  function ActiveIds(services: seq<ServiceSnapshot>): seq<nat> {
    if services == [] then []
    else
      var last := services[|services| - 1];
      ActiveIds(services[..|services| - 1]) + if last.state.Active? then [last.id] else []
  }

  ghost function ItemsFor(snapshot: Snapshot, at: int, ids: seq<nat>): seq<ServiceEvidence> {
    seq(|ids|, i requires 0 <= i < |ids| => Outcome(snapshot, at, ids[i]).item)
  }

  ghost function EvidenceAt(snapshot: Snapshot, at: int): TimepointEvidence {
    TimepointEvidence(at, AscendingIds(ActiveAnchors(snapshot.config, at)),
                      ItemsFor(snapshot, at, SortedIds(ActiveIds(snapshot.services))))
  }

  /** A service that is not reachable at an instant, with the outcome of the search for it. */
  datatype Failure = Failure(service: ServiceSnapshot, at: int, outcome: Resolution)

  ghost function FailuresAt(snapshot: Snapshot, at: int, services: seq<ServiceSnapshot>): seq<Failure> {
    if services == [] then []
    else
      var last := services[|services| - 1];
      var outcome := Outcome(snapshot, at, last.id);
      FailuresAt(snapshot, at, services[..|services| - 1])
      + if last.state.Active? && !outcome.item.reachable then [Failure(last, at, outcome)] else []
  }

  ghost function Failures(snapshot: Snapshot, points: seq<int>): seq<Failure> {
    if points == [] then []
    else
      Failures(snapshot, points[..|points| - 1]) + FailuresAt(snapshot, points[|points| - 1], snapshot.services)
  }

  function Codes(byId: map<nat, ServiceSnapshot>, path: seq<nat>): seq<string> {
    if path == [] then []
    else
      var last := path[|path| - 1];
      Codes(byId, path[..|path| - 1]) + if last in byId then [byId[last].code] else []
  }

  ghost function ToAffected(f: Failure): AffectedService {
    AffectedService(f.service.id, f.service.code, f.service.criticality, f.at, f.outcome.item.reason)
  }

  ghost function ToBroken(byId: map<nat, ServiceSnapshot>, f: Failure): BrokenPath {
    BrokenPath(f.at, Codes(byId, f.outcome.path), f.outcome.item.reason)
  }

  ghost function AllAffected(fs: seq<Failure>): seq<AffectedService> {
    seq(|fs|, i requires 0 <= i < |fs| => ToAffected(fs[i]))
  }

  ghost function AllBroken(byId: map<nat, ServiceSnapshot>, fs: seq<Failure>): seq<BrokenPath> {
    seq(|fs|, i requires 0 <= i < |fs| => ToBroken(byId, fs[i]))
  }

  ghost function AllEvidence(snapshot: Snapshot, points: seq<int>): seq<TimepointEvidence> {
    seq(|points|, i requires 0 <= i < |points| => EvidenceAt(snapshot, points[i]))
  }

  ghost predicate SomeBefore(affected: seq<AffectedService>, t: int) {
    exists i :: 0 <= i < |affected| && affected[i].at < t
  }

  ghost predicate SomeAfter(affected: seq<AffectedService>, t: int) {
    exists i :: 0 <= i < |affected| && affected[i].at > t
  }

  ghost function ExplanationOf(config: ScenarioConfig, affected: seq<AffectedService>, paths: nat): Explanation {
    if affected == [] then AllReachable
    else
      FailuresFound(|affected|, paths, SomeBefore(affected, config.overlapStart),
                    SomeAfter(affected, config.overlapEnd))
  }

  ghost function SimulationOf(snapshot: Snapshot): SimulationResult {
    var points := Instants(snapshot.config);
    var failures := Failures(snapshot, points);
    SimulationResult(AllAffected(failures), AllBroken(ServicesById(snapshot.services), failures),
                     AllEvidence(snapshot, points), ExplanationOf(snapshot.config, AllAffected(failures), |failures|))
  }

  // ---------- the loops ----------

  function EvidenceId(e: ServiceEvidence): int { e.serviceId }

  lemma {:induction false} TableKeys(services: seq<ServiceSnapshot>, config: ScenarioConfig, at: int, chains: Chains,
                                     id: nat)
    ensures var table := DirectTable(services, config, at, chains);
      (id in table <==> id in ActiveIds(services)) && (id in table ==> table[id].serviceId == id)
  {
    if services != [] {
      var front, last := services[..|services| - 1], services[|services| - 1];
      TableKeys(front, config, at, chains, id);
      DirectExact(last, config, at, chains);
      assert id in ActiveIds(services) <==> id in ActiveIds(front) || (last.state.Active? && id == last.id);
    }
  }

  lemma OutcomeIdentifies(snapshot: Snapshot, at: int, id: nat)
    ensures Outcome(snapshot, at, id).item.serviceId == id
  {
    TableKeys(snapshot.services, snapshot.config, at, ChainsById(snapshot.chains), id);
    ResolveKeepsIdentity(EvidenceTable(snapshot, at), DependencyGraph(snapshot.services), id);
  }

  lemma ResolveKeepsIdentity(direct: Evidences, g: Graph, id: nat)
    ensures Resolve(direct, g, id, {}).item.serviceId == if id in direct then direct[id].serviceId else id
  {
  }

  lemma {:induction false} ItemsOfInserted(snapshot: Snapshot, at: int, x: nat, ids: seq<nat>)
    ensures multiset(ItemsFor(snapshot, at, InsertRepeated(x, ids)))
            == multiset{Outcome(snapshot, at, x).item} + multiset(ItemsFor(snapshot, at, ids))
  {
    ItemsOfLonger(snapshot, at, x, ids);
    if ids != [] && x > ids[0] {
      ItemsOfInserted(snapshot, at, x, ids[1..]);
      ItemsOfLonger(snapshot, at, ids[0], ids[1..]);
      ItemsOfLonger(snapshot, at, ids[0], InsertRepeated(x, ids[1..]));
      assert ids == [ids[0]] + ids[1..];
    }
  }

  lemma ItemsOfLonger(snapshot: Snapshot, at: int, x: nat, ids: seq<nat>)
    ensures ItemsFor(snapshot, at, [x] + ids) == [Outcome(snapshot, at, x).item] + ItemsFor(snapshot, at, ids)
  {
  }

  lemma ItemsOfAppended(snapshot: Snapshot, at: int, ids: seq<nat>, x: nat)
    ensures multiset(ItemsFor(snapshot, at, ids + [x]))
            == multiset{Outcome(snapshot, at, x).item} + multiset(ItemsFor(snapshot, at, ids))
  {
    assert ItemsFor(snapshot, at, ids + [x]) == ItemsFor(snapshot, at, ids) + [Outcome(snapshot, at, x).item];
  }

  lemma {:induction false} ItemsOfSorted(snapshot: Snapshot, at: int, ids: seq<nat>)
    ensures multiset(ItemsFor(snapshot, at, SortedIds(ids))) == multiset(ItemsFor(snapshot, at, ids))
  {
    if ids != [] {
      var front, last := ids[..|ids| - 1], ids[|ids| - 1];
      assert ids == front + [last];
      calc {
        multiset(ItemsFor(snapshot, at, SortedIds(ids)));
        { ItemsOfInserted(snapshot, at, last, SortedIds(front)); }
        multiset{Outcome(snapshot, at, last).item} + multiset(ItemsFor(snapshot, at, SortedIds(front)));
        { ItemsOfSorted(snapshot, at, front); }
        multiset{Outcome(snapshot, at, last).item} + multiset(ItemsFor(snapshot, at, front));
        { ItemsOfAppended(snapshot, at, front, last); }
        multiset(ItemsFor(snapshot, at, ids));
      }
    }
  }

  lemma ItemsKeepKeys(snapshot: Snapshot, at: int, ids: seq<nat>)
    ensures forall i :: 0 <= i < |ids| ==> EvidenceId(ItemsFor(snapshot, at, ids)[i]) == ids[i]
  {
    forall i | 0 <= i < |ids| ensures EvidenceId(ItemsFor(snapshot, at, ids)[i]) == ids[i] {
      OutcomeIdentifies(snapshot, at, ids[i]);
    }
  }

  lemma {:induction false} ActiveIdsDistinct(services: seq<ServiceSnapshot>)
    requires DistinctBy(services, ServiceId)
    ensures DistinctBy(ActiveIds(services), (x: nat) => x)
    ensures forall x :: x in ActiveIds(services) <==> exists s :: s in services && s.id == x && s.state.Active?
  {
    if services != [] {
      var front, last := services[..|services| - 1], services[|services| - 1];
      ActiveIdsDistinct(front);
      assert services == front + [last];
      assert forall s :: s in services <==> s in front || s == last;
      assert last.id !in ActiveIds(front) by {
        assert forall i :: 0 <= i < |front| ==> ServiceId(services[i]) != ServiceId(last);
      }
    }
  }

  /** Sorting the evidence of an instant by service lists it in ascending order of active identifiers. Equal identifiers
      have equal evidence, so that the result does not depend on how the sort treats them. */
  lemma SortedItems(snapshot: Snapshot, at: int, items: seq<ServiceEvidence>)
    requires SortedBy(items, EvidenceId)
    requires multiset(items) == multiset(ItemsFor(snapshot, at, ActiveIds(snapshot.services)))
    ensures items == EvidenceAt(snapshot, at).services
  {
    var ids := SortedIds(ActiveIds(snapshot.services));
    var wanted := ItemsFor(snapshot, at, ids);
    SortedIdsSorts(ActiveIds(snapshot.services));
    ItemsKeepKeys(snapshot, at, ids);
    assert SortedBy(wanted, EvidenceId) by {
      assert forall i :: 0 <= i < |ids| ==> Itself(ids[i]) == ids[i];
    }
    assert KeyDecides(wanted, EvidenceId);
    ItemsOfSorted(snapshot, at, ActiveIds(snapshot.services));
    assert |multiset(items)| == |items| && |multiset(wanted)| == |wanted|;
    SortedOrderIsUnique(wanted, items, EvidenceId);
  }

  method BuildDirect(snapshot: Snapshot, at: int, active: map<nat, bool>, chains: Chains) returns (direct: Evidences)
    requires forall a :: a in active <==> a in ActiveAnchors(snapshot.config, at)
    ensures direct == DirectTable(snapshot.services, snapshot.config, at, chains)
  {
    var services := snapshot.services;
    direct := map[];
    for i := 0 to |services|
      invariant direct == DirectTable(services[..i], snapshot.config, at, chains)
    {
      assert services[..i + 1][..i] == services[..i];
      if services[i].state != Active {
        continue;
      }
      var item := EvaluateDirect(services[i], snapshot.config, at, active, chains);
      direct := direct[services[i].id := item];
    }
    assert services[..|services|] == services;
  }

  method PathCodes(byId: map<nat, ServiceSnapshot>, path: seq<nat>) returns (codes: seq<string>)
    ensures codes == Codes(byId, path)
  {
    codes := [];
    for i := 0 to |path|
      invariant codes == Codes(byId, path[..i])
    {
      assert path[..i + 1][..i] == path[..i];
      if path[i] in byId {
        codes := codes + [byId[path[i]].code];
      }
    }
    assert path[..|path|] == path;
  }

  /** The first `n` services have been resolved at an instant. */
  ghost predicate Resolved(snapshot: Snapshot, at: int, n: nat, items: seq<ServiceEvidence>,
                           affected: seq<AffectedService>, broken: seq<BrokenPath>)
    requires n <= |snapshot.services|
  {
    var done := snapshot.services[..n];
    && items == ItemsFor(snapshot, at, ActiveIds(done))
    && affected == AllAffected(FailuresAt(snapshot, at, done))
    && broken == AllBroken(ServicesById(snapshot.services), FailuresAt(snapshot, at, done))
  }

  lemma ResolveNext(snapshot: Snapshot, at: int, n: nat, items: seq<ServiceEvidence>,
                    affected: seq<AffectedService>, broken: seq<BrokenPath>)
    requires n < |snapshot.services| && Resolved(snapshot, at, n, items, affected, broken)
    ensures var service := snapshot.services[n];
      var outcome := Outcome(snapshot, at, service.id);
      var failure := Failure(service, at, outcome);
      if service.state != Active then
        Resolved(snapshot, at, n + 1, items, affected, broken)
      else if outcome.item.reachable then
        Resolved(snapshot, at, n + 1, items + [outcome.item], affected, broken)
      else
        Resolved(snapshot, at, n + 1, items + [outcome.item], affected + [ToAffected(failure)],
                 broken + [ToBroken(ServicesById(snapshot.services), failure)])
  {
    var services := snapshot.services;
    assert services[..n + 1][..n] == services[..n];
    assert FailuresAt(snapshot, at, services[..n]) + [] == FailuresAt(snapshot, at, services[..n]);
    assert ActiveIds(services[..n]) + [] == ActiveIds(services[..n]);
  }

  /** The second pass over the services at one instant. */
  method ResolveServices(snapshot: Snapshot, at: int, direct: Evidences, serviceById: map<nat, ServiceSnapshot>)
    returns (items: seq<ServiceEvidence>, affected: seq<AffectedService>, broken: seq<BrokenPath>)
    requires direct == EvidenceTable(snapshot, at) && serviceById == ServicesById(snapshot.services)
    ensures Resolved(snapshot, at, |snapshot.services|, items, affected, broken)
  {
    items, affected, broken := [], [], [];
    for i := 0 to |snapshot.services|
      invariant Resolved(snapshot, at, i, items, affected, broken)
    {
      var service := snapshot.services[i];
      ResolveNext(snapshot, at, i, items, affected, broken);
      if service.state != Active {
        continue;
      }
      var item, path := ResolveOne(service.id, direct, serviceById);
      items := items + [item];
      if !item.reachable {
        affected := affected + [AffectedService(service.id, service.code, service.criticality, at, item.reason)];
        var codes := PathCodes(serviceById, path);
        broken := broken + [BrokenPath(at, codes, item.reason)];
      }
    }
  }

  /** One search, starting with nothing being visited and an empty path. */
  method ResolveOne(id: nat, direct: Evidences, serviceById: map<nat, ServiceSnapshot>)
    returns (item: ServiceEvidence, path: seq<nat>)
    ensures Resolution(item, path) == Resolve(direct, GraphOf(serviceById), id, {})
  {
    var resolver := new Resolver(direct, serviceById);
    assert resolver.visiting.Keys == {};
    item, path := resolver.ResolveService(id, []);
  }

  method SimulateInstant(snapshot: Snapshot, at: int, chainById: Chains, serviceById: map<nat, ServiceSnapshot>)
    returns (evidence: TimepointEvidence, affected: seq<AffectedService>, broken: seq<BrokenPath>)
    requires chainById == ChainsById(snapshot.chains) && serviceById == ServicesById(snapshot.services)
    ensures evidence == EvidenceAt(snapshot, at)
    ensures affected == AllAffected(FailuresAt(snapshot, at, snapshot.services))
    ensures broken == AllBroken(serviceById, FailuresAt(snapshot, at, snapshot.services))
  {
    var active := ComputeActiveAnchors(snapshot.config, at);
    var activeIds := SortedKeys(active, ActiveAnchors(snapshot.config, at));
    var direct := BuildDirect(snapshot, at, active, chainById);
    var items;
    items, affected, broken := ResolveServices(snapshot, at, direct, serviceById);
    assert snapshot.services[..|snapshot.services|] == snapshot.services;
    var sorted := SortedCopy(items, EvidenceId);
    SortedItems(snapshot, at, sorted);
    evidence := TimepointEvidence(at, activeIds, sorted);
  }

  method Explain(config: ScenarioConfig, affected: seq<AffectedService>, paths: nat) returns (e: Explanation)
    ensures e == ExplanationOf(config, affected, paths)
  {
    if |affected| == 0 {
      return AllReachable;
    }
    var before, after := 0, 0;
    for i := 0 to |affected|
      invariant before >= 0 && after >= 0
      invariant before > 0 <==> exists j :: 0 <= j < i && affected[j].at < config.overlapStart
      invariant after > 0 <==> exists j :: 0 <= j < i && affected[j].at > config.overlapEnd
    {
      if affected[i].at < config.overlapStart {
        before := before + 1;
      }
      if affected[i].at > config.overlapEnd {
        after := after + 1;
      }
    }
    e := FailuresFound(|affected|, paths, before > 0, after > 0);
  }

  method IndexChains(chains: seq<ChainSnapshot>) returns (byId: Chains)
    ensures byId == ChainsById(chains)
  {
    byId := map[];
    for i := 0 to |chains|
      invariant byId == ChainsById(chains[..i])
    {
      assert chains[..i + 1][..i] == chains[..i];
      byId := byId[chains[i].id := chains[i]];
    }
    assert chains[..|chains|] == chains;
  }

  method IndexServices(services: seq<ServiceSnapshot>) returns (byId: map<nat, ServiceSnapshot>)
    ensures byId == ServicesById(services)
  {
    byId := map[];
    for i := 0 to |services|
      invariant byId == ServicesById(services[..i])
    {
      assert services[..i + 1][..i] == services[..i];
      byId := byId[services[i].id := services[i]];
    }
    assert services[..|services|] == services;
  }

  /** The first `n` instants have been simulated. */
  ghost predicate Simulated(snapshot: Snapshot, points: seq<int>, n: nat, affected: seq<AffectedService>,
                            broken: seq<BrokenPath>, evidence: seq<TimepointEvidence>)
    requires n <= |points|
  {
    var failures := Failures(snapshot, points[..n]);
    && affected == AllAffected(failures)
    && broken == AllBroken(ServicesById(snapshot.services), failures)
    && evidence == AllEvidence(snapshot, points[..n])
  }

  lemma SimulateNext(snapshot: Snapshot, points: seq<int>, n: nat, affected: seq<AffectedService>,
                     broken: seq<BrokenPath>, evidence: seq<TimepointEvidence>)
    requires n < |points| && Simulated(snapshot, points, n, affected, broken, evidence)
    ensures var more := FailuresAt(snapshot, points[n], snapshot.services);
      Simulated(snapshot, points, n + 1, affected + AllAffected(more),
                broken + AllBroken(ServicesById(snapshot.services), more), evidence + [EvidenceAt(snapshot, points[n])])
  {
    assert points[..n + 1][..n] == points[..n];
    var failures, more := Failures(snapshot, points[..n]), FailuresAt(snapshot, points[n], snapshot.services);
    assert Failures(snapshot, points[..n + 1]) == failures + more;
    AffectedAppend(failures, more);
    BrokenAppend(ServicesById(snapshot.services), failures, more);
  }

  lemma AffectedAppend(a: seq<Failure>, b: seq<Failure>)
    ensures AllAffected(a + b) == AllAffected(a) + AllAffected(b)
  {
  }

  lemma BrokenAppend(byId: map<nat, ServiceSnapshot>, a: seq<Failure>, b: seq<Failure>)
    ensures AllBroken(byId, a + b) == AllBroken(byId, a) + AllBroken(byId, b)
  {
  }

  method Simulate(snapshot: Snapshot) returns (r: Result<SimulationResult, ValidationError>)
    ensures r.Ok? <==> WellFormed(snapshot)
    ensures r.Ok? ==> r.value == SimulationOf(snapshot)
    ensures r.Err? ==> Blames(snapshot, r.error)
  {
    var err := ValidateSnapshot(snapshot);
    if err.Some? {
      return Err(err.value);
    }
    var points := CriticalTimes(snapshot.config);
    var chainById := IndexChains(snapshot.chains);
    var serviceById := IndexServices(snapshot.services);
    var affected: seq<AffectedService>, broken: seq<BrokenPath>, evidence: seq<TimepointEvidence> := [], [], [];
    for i := 0 to |points|
      invariant Simulated(snapshot, points, i, affected, broken, evidence)
    {
      SimulateNext(snapshot, points, i, affected, broken, evidence);
      var e, a, b := SimulateInstant(snapshot, points[i], chainById, serviceById);
      affected, broken, evidence := affected + a, broken + b, evidence + [e];
    }
    assert points[..|points|] == points;
    var explanation := Explain(snapshot.config, affected, |broken|);
    r := Ok(SimulationResult(affected, broken, evidence, explanation));
  }
}
