/** A scenario that is reported as reachable throughout but fails the condition of
    `Sampling.AllReachableTrueExactly`: one chain ends before the next one begins, and both cover sampled instants
    only. */
module SamplingGap {
  import opened Ordered
  import opened Graphs
  import opened Snapshots
  import opened Validation
  import opened Direct
  import opened Propagation
  import opened Simulation
  import opened Impact
  import opened Monotonicity
  import opened Sampling

  const OLD_CHAIN := ChainSnapshot(1, "old", 1, "CN=api", 0, 11 * MINUTE, Validated, true)
  const NEW_CHAIN := ChainSnapshot(2, "new", 2, "CN=api", 15 * MINUTE, 30 * MINUTE, Validated, true)
  const API := ServiceSnapshot(7, "api", 1, [1, 2], [], "high", Active)
  const OLD_ANCHOR := AnchorSnapshot(1, "old-root", "valid", 0, 30 * MINUTE, false)
  const NEW_ANCHOR := AnchorSnapshot(2, "new-root", "valid", 0, 30 * MINUTE, false)
  const CONFIG := ScenarioConfig("gap", 1, 2, 10 * MINUTE, 20 * MINUTE, [2], 15 * MINUTE)
  const GAP := Snapshot(VERSION, CONFIG, [OLD_ANCHOR, NEW_ANCHOR], [OLD_CHAIN, NEW_CHAIN], [API])

  lemma GapTables()
    ensures DistinctBy(GAP.services, ServiceId)
    ensures ChainsById(GAP.chains) == map[1 := OLD_CHAIN, 2 := NEW_CHAIN]
    ensures ServicesById(GAP.services) == map[7 := API] && DependencyGraph(GAP.services) == map[7 := []]
  {
    assert [OLD_CHAIN][..0] == [];
    assert ChainsById([]) == map[];
    assert ChainsById([OLD_CHAIN]) == map[1 := OLD_CHAIN];
    assert [OLD_CHAIN, NEW_CHAIN][..1] == [OLD_CHAIN];
    assert [API][..0] == [];
    assert ServicesById([]) == map[];
    assert ServicesById([API]) == map[7 := API];
  }

  lemma GapReachable(at: int)
    ensures ReachableAt(GAP, 7, at) <==> DirectlyReachable(API, CONFIG, at, ChainsById(GAP.chains))
  {
    GapTables();
    var g := DependencyGraph(GAP.services);
    forall v | Reaches(g, 7, v) ensures v == 7 && !OnCycle(g, v) {
      if v != 7 {
        var d := FirstEdgeOf(g, 7, v);
      }
      if OnCycle(g, 7) {
        var d := CycleThroughFirstEdge(g, 7);
      }
    }
    ReachesSelf(g, 7);
    HealthyExactly(GAP, at, 7);
    assert API in GAP.services;
  }

  lemma GapAcceptable(at: int, id: nat)
    ensures id in Considered(API, CONFIG) <==> id == 1 || id == 2
    ensures Acceptable(API, CONFIG, at, ChainsById(GAP.chains), id) <==>
            (id == 1 && 0 <= at < 11 * MINUTE) || (id == 2 && at >= 10 * MINUTE && 15 * MINUTE <= at < 30 * MINUTE)
  {
    GapTables();
    assert [API.chainId] + CONFIG.candidateChainIds == [1, 2];
  }

  lemma GapAccepted()
    ensures WellFormed(GAP)
  {
    GapTables();
    assert OLD_ANCHOR in GAP.anchors && NEW_ANCHOR in GAP.anchors && NEW_CHAIN in GAP.chains;
    forall v ensures !OnCycle(DependencyGraph(GAP.services), v) {
      if OnCycle(DependencyGraph(GAP.services), v) {
        var d := CycleThroughFirstEdge(DependencyGraph(GAP.services), v);
      }
    }
  }

  lemma GapSampledReachable(t: int)
    requires t in Instants(CONFIG)
    ensures ReachableAt(GAP, 7, t)
  {
    assert t in SixInstants(CONFIG);
    GapReachable(t);
    GapAcceptable(t, 1);
    GapAcceptable(t, 2);
  }

  lemma GapReportsNothing()
    ensures SimulationOf(GAP).affected == []
  {
    var affected := SimulationOf(GAP).affected;
    if affected != [] {
      AffectedExactly(GAP, affected[0].serviceId, affected[0].at);
      GapSampledReachable(affected[0].at);
      assert false;
    }
  }

  /** The simulation accepts this scenario and reports nothing, yet the service is unreachable from the end of the
      old chain's window on, in the middle of the overlap. */
  lemma SamplingCanMissAnOutage()
    ensures WellFormed(GAP) && DistinctBy(GAP.services, ServiceId) && ActiveService(GAP, 7)
    ensures SimulationOf(GAP).affected == [] && SimulationOf(GAP).explanation == AllReachable
    ensures Decisive(GAP, 11 * MINUTE) && !ReachableAt(GAP, 7, 11 * MINUTE) && !ReachableOverSpan(GAP, 7)
  {
    GapTables();
    GapAccepted();
    GapReportsNothing();
    assert API in GAP.services;
    assert ChainsById(GAP.chains)[1].validTo == 11 * MINUTE;
    GapReachable(11 * MINUTE);
    forall id ensures !(id in Considered(API, CONFIG)
      && Acceptable(API, CONFIG, 11 * MINUTE, ChainsById(GAP.chains), id)) {
      GapAcceptable(11 * MINUTE, id);
    }
    OverSpanExactly(GAP, 7);
  }
}
