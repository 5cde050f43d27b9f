/** Comparing the simulations of two inputs, one of which relaxes the other. */
module Monotonicity {
  import opened Ordered
  import opened Graphs
  import opened Snapshots
  import opened Direct
  import opened Propagation
  import opened Simulation
  import opened Impact

  ghost predicate DirectlyReachable(s: ServiceSnapshot, config: ScenarioConfig, at: int, chains: Chains) {
    exists id :: id in Considered(s, config) && Acceptable(s, config, at, chains, id)
  }

  lemma {:induction false} TableEntry(services: seq<ServiceSnapshot>, config: ScenarioConfig, at: int, chains: Chains,
                                      s: ServiceSnapshot)
    requires DistinctBy(services, ServiceId) && s in services && s.state.Active?
    ensures s.id in DirectTable(services, config, at, chains)
    ensures DirectTable(services, config, at, chains)[s.id] == DirectEvidence(s, config, at, chains)
  {
    var front, last := services[..|services| - 1], services[|services| - 1];
    assert services == front + [last];
    if s != last {
      TableEntry(front, config, at, chains, s);
      var k :| 0 <= k < |front| && front[k] == s;
      assert ServiceId(services[k]) != ServiceId(last);
    }
  }

  /** A service is healthy at an instant exactly when it is active and has a usable chain of its own. */
  lemma HealthyExactly(snapshot: Snapshot, at: int, v: nat)
    requires DistinctBy(snapshot.services, ServiceId)
    ensures Healthy(EvidenceTable(snapshot, at), v) <==>
            exists s :: s in snapshot.services && s.id == v && s.state.Active?
                        && DirectlyReachable(s, snapshot.config, at, ChainsById(snapshot.chains))
  {
    var config, chains := snapshot.config, ChainsById(snapshot.chains);
    TableKeys(snapshot.services, config, at, chains, v);
    ActiveIdsDistinct(snapshot.services);
    forall s | s in snapshot.services && s.id == v && s.state.Active?
      ensures Healthy(EvidenceTable(snapshot, at), v) <==> DirectlyReachable(s, config, at, chains)
    {
      TableEntry(snapshot.services, config, at, chains, s);
      DirectExact(s, config, at, chains);
    }
  }

  /** `d` serves wherever `c` does: same anchor and leaf, a window at least as wide, no worse a state. */
  ghost predicate ChainImproves(c: ChainSnapshot, d: ChainSnapshot) {
    && d.anchorId == c.anchorId && d.leafSubject == c.leafSubject
    && d.validFrom <= c.validFrom && c.validTo <= d.validTo
    && (c.validationValid ==> d.validationValid)
    && (d.state in {Revoked, Deprecated} ==> c.state in {Revoked, Deprecated})
  }

  /** `t` is `s` with possibly more trusted anchors and fewer dependencies. */
  ghost predicate ServiceImproves(s: ServiceSnapshot, t: ServiceSnapshot) {
    && t.id == s.id && t.chainId == s.chainId && t.state == s.state
    && (forall a :: a in s.trustAnchorIds ==> a in t.trustAnchorIds)
    && (forall d :: d in t.dependencyIds ==> d in s.dependencyIds)
  }

  /** `b` relaxes `a`: more candidates, wider or additional chains, larger trust sets, fewer dependencies. */
  ghost predicate Improves(a: Snapshot, b: Snapshot) {
    && a.config.(candidateChainIds := b.config.candidateChainIds) == b.config
    && (forall id :: id in a.config.candidateChainIds ==> id in b.config.candidateChainIds)
    && (forall id :: id in ChainsById(a.chains) ==>
          id in ChainsById(b.chains) && ChainImproves(ChainsById(a.chains)[id], ChainsById(b.chains)[id]))
    && ServicesById(a.services).Keys == ServicesById(b.services).Keys
    && (forall id :: id in ServicesById(a.services) ==>
          ServiceImproves(ServicesById(a.services)[id], ServicesById(b.services)[id]))
  }

  lemma ImprovedServiceReachable(a: Snapshot, b: Snapshot, s: ServiceSnapshot, t: ServiceSnapshot, at: int)
    requires Improves(a, b) && ServiceImproves(s, t)
    requires DirectlyReachable(s, a.config, at, ChainsById(a.chains))
    ensures DirectlyReachable(t, b.config, at, ChainsById(b.chains))
  {
    var id :| id in Considered(s, a.config) && Acceptable(s, a.config, at, ChainsById(a.chains), id);
    assert ChainImproves(ChainsById(a.chains)[id], ChainsById(b.chains)[id]);
    assert ChainImproves(ChainsById(a.chains)[s.chainId], ChainsById(b.chains)[s.chainId]);
    assert id in [s.chainId] + a.config.candidateChainIds;
    assert id in [t.chainId] + b.config.candidateChainIds;
    assert ActiveAnchors(a.config, at) == ActiveAnchors(b.config, at);
    assert Acceptable(t, b.config, at, ChainsById(b.chains), id);
  }

  lemma ImprovedGraphIsSmaller(a: Snapshot, b: Snapshot)
    requires Improves(a, b)
    ensures Subgraph(DependencyGraph(b.services), DependencyGraph(a.services))
  {
    forall x, y | Edge(DependencyGraph(b.services), x, y) ensures Edge(DependencyGraph(a.services), x, y) {
      assert ServiceImproves(ServicesById(a.services)[x], ServicesById(b.services)[x]);
    }
  }

  lemma ImprovedHealthy(a: Snapshot, b: Snapshot, at: int, v: nat)
    requires Improves(a, b) && DistinctBy(a.services, ServiceId) && DistinctBy(b.services, ServiceId)
    requires Healthy(EvidenceTable(a, at), v)
    ensures Healthy(EvidenceTable(b, at), v)
  {
    HealthyExactly(a, at, v);
    HealthyExactly(b, at, v);
    var s :| s in a.services && s.id == v && s.state.Active?
      && DirectlyReachable(s, a.config, at, ChainsById(a.chains));
    ServicesByIdExact(a.services, s);
    ServicesByIdSound(b.services);
    ImprovedServiceReachable(a, b, s, ServicesById(b.services)[v], at);
  }

  lemma ImprovedReachable(a: Snapshot, b: Snapshot, id: nat, at: int)
    requires Improves(a, b) && DistinctBy(a.services, ServiceId) && DistinctBy(b.services, ServiceId)
    requires ReachableAt(a, id, at)
    ensures ReachableAt(b, id, at)
  {
    var ga, gb := DependencyGraph(a.services), DependencyGraph(b.services);
    ImprovedGraphIsSmaller(a, b);
    forall v | Reaches(gb, id, v) ensures Healthy(EvidenceTable(b, at), v) && !OnCycle(gb, v) {
      SubgraphReaches(gb, ga, id, v);
      if OnCycle(gb, v) {
        SubgraphOnCycle(gb, ga, v);
      }
      ImprovedHealthy(a, b, at, v);
    }
  }

  lemma ImprovedActive(a: Snapshot, b: Snapshot, id: nat)
    requires Improves(a, b) && DistinctBy(b.services, ServiceId) && ActiveService(b, id)
    ensures ActiveService(a, id)
  {
    var t :| t in b.services && t.id == id && t.state.Active?;
    ServicesByIdExact(b.services, t);
    ServicesByIdSound(a.services);
    assert ServiceImproves(ServicesById(a.services)[id], t);
  }

  /** Simulation is monotone: relaxing the input never adds a service and instant to the report. */
  lemma SimulationIsMonotone(a: Snapshot, b: Snapshot, id: nat, at: int)
    requires Improves(a, b) && DistinctBy(a.services, ServiceId) && DistinctBy(b.services, ServiceId)
    requires Listed(SimulationOf(b).affected, id, at)
    ensures Listed(SimulationOf(a).affected, id, at)
  {
    assert at in Instants(b.config) && ActiveService(b, id) && !ReachableAt(b, id, at) by {
      AffectedExactly(b, id, at);
    }
    assert Instants(a.config) == Instants(b.config) by {
      assert SixInstants(a.config) == SixInstants(b.config);
    }
    ImprovedActive(a, b, id);
    assert !ReachableAt(a, id, at) by {
      if ReachableAt(a, id, at) {
        ImprovedReachable(a, b, id, at);
      }
    }
    AffectedExactly(a, id, at);
  }
}
