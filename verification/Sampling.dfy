/** What the sampled instants say about the instants between them. */
module Sampling {
  import opened Ordered
  import opened Graphs
  import opened Snapshots
  import opened Direct
  import opened Propagation
  import opened Simulation
  import opened Impact
  import opened Monotonicity

  /** Both instants lie before the overlap, both within it, or both after it. */
  ghost predicate SamePhase(config: ScenarioConfig, p: int, q: int) {
    || (p < config.overlapStart && q < config.overlapStart)
    || (config.overlapStart <= p <= config.overlapEnd && config.overlapStart <= q <= config.overlapEnd)
    || (config.overlapStart <= p && config.overlapStart <= q && p > config.overlapEnd && q > config.overlapEnd)
  }

  lemma DirectLifts(s: ServiceSnapshot, config: ScenarioConfig, chains: Chains, p: int, t: int, q: int)
    requires p <= t <= q && SamePhase(config, p, q)
    requires DirectEvidence(s, config, p, chains).reachable && DirectEvidence(s, config, q, chains).reachable
    requires DirectEvidence(s, config, p, chains).selectedChain == DirectEvidence(s, config, q, chains).selectedChain
    ensures DirectlyReachable(s, config, t, chains)
  {
    DirectExact(s, config, p, chains);
    DirectExact(s, config, q, chains);
    var id := DirectEvidence(s, config, p, chains).selectedChain;
    assert ActiveAnchors(config, p) == ActiveAnchors(config, t) == ActiveAnchors(config, q);
    assert Acceptable(s, config, t, chains, id);
  }

  /** Sampling lifts to continuous time: if a service is reachable at two instants of one phase, and everything in
      its closure uses the same chain at both, then it is reachable at every instant between them. */
  lemma SamplingLifts(snapshot: Snapshot, id: nat, p: int, t: int, q: int)
    requires DistinctBy(snapshot.services, ServiceId)
    requires p <= t <= q && SamePhase(snapshot.config, p, q)
    requires ReachableAt(snapshot, id, p) && ReachableAt(snapshot, id, q)
    requires forall v :: Reaches(DependencyGraph(snapshot.services), id, v) ==>
      EvidenceTable(snapshot, p)[v].selectedChain == EvidenceTable(snapshot, q)[v].selectedChain
    ensures ReachableAt(snapshot, id, t)
  {
    var g, chains := DependencyGraph(snapshot.services), ChainsById(snapshot.chains);
    forall v | Reaches(g, id, v) ensures Healthy(EvidenceTable(snapshot, t), v) {
      HealthyExactly(snapshot, p, v);
      HealthyExactly(snapshot, t, v);
      var s :| s in snapshot.services && s.id == v && s.state.Active?
        && DirectlyReachable(s, snapshot.config, p, chains);
      TableEntry(snapshot.services, snapshot.config, p, chains, s);
      TableEntry(snapshot.services, snapshot.config, q, chains, s);
      assert Healthy(EvidenceTable(snapshot, q), v);
      DirectLifts(s, snapshot.config, chains, p, t, q);
    }
  }

  // ---------- exactly when nothing is missed ----------

  /** The window of some chain ends at `e`. */
  ghost predicate WindowEnds(snapshot: Snapshot, e: int) {
    exists id :: id in ChainsById(snapshot.chains) && ChainsById(snapshot.chains)[id].validTo == e
  }

  ghost predicate ReachableThroughout(snapshot: Snapshot, id: nat, p: int, q: int) {
    forall t :: p <= t <= q ==> ReachableAt(snapshot, id, t)
  }

  ghost predicate ReachableAtEnds(snapshot: Snapshot, id: nat, p: int, q: int) {
    forall e :: WindowEnds(snapshot, e) && p < e <= q ==> ReachableAt(snapshot, id, e)
  }

  /** While no window ends, whatever is usable stays usable. */
  lemma NothingEnds(snapshot: Snapshot, id: nat, p: int, t: int)
    requires DistinctBy(snapshot.services, ServiceId)
    requires p <= t && SamePhase(snapshot.config, p, t) && ReachableAt(snapshot, id, p)
    requires forall e :: WindowEnds(snapshot, e) ==> !(p < e <= t)
    ensures ReachableAt(snapshot, id, t)
  {
    var config, chains := snapshot.config, ChainsById(snapshot.chains);
    assert ActiveAnchors(config, p) == ActiveAnchors(config, t);
    forall v | Reaches(DependencyGraph(snapshot.services), id, v) ensures Healthy(EvidenceTable(snapshot, t), v) {
      HealthyExactly(snapshot, p, v);
      HealthyExactly(snapshot, t, v);
      var s :| s in snapshot.services && s.id == v && s.state.Active? && DirectlyReachable(s, config, p, chains);
      var c :| c in Considered(s, config) && Acceptable(s, config, p, chains, c);
      assert WindowEnds(snapshot, chains[c].validTo);
      assert Acceptable(s, config, t, chains, c);
    }
  }

  lemma {:induction false} ReachableSince(snapshot: Snapshot, id: nat, p: int, t: int)
    requires DistinctBy(snapshot.services, ServiceId)
    requires p <= t && SamePhase(snapshot.config, p, t)
    requires ReachableAt(snapshot, id, p) && ReachableAtEnds(snapshot, id, p, t)
    ensures ReachableAt(snapshot, id, t)
    decreases t - p
  {
    if e :| WindowEnds(snapshot, e) && p < e <= t {
      ReachableSince(snapshot, id, e, t);
    } else {
      NothingEnds(snapshot, id, p, t);
    }
  }

  /** Within one phase, a service is reachable throughout if and only if it is at the beginning and at every
      instant at which the window of a chain ends. */
  lemma ThroughoutPhaseExactly(snapshot: Snapshot, id: nat, p: int, q: int)
    requires DistinctBy(snapshot.services, ServiceId)
    requires p <= q && SamePhase(snapshot.config, p, q)
    ensures ReachableThroughout(snapshot, id, p, q) <==>
            ReachableAt(snapshot, id, p) && ReachableAtEnds(snapshot, id, p, q)
  {
    if ReachableAt(snapshot, id, p) && ReachableAtEnds(snapshot, id, p, q) {
      forall t | p <= t <= q ensures ReachableAt(snapshot, id, t) {
        ReachableSince(snapshot, id, p, t);
      }
    }
  }

  /** The instants that decide about the span of a simulation beyond those that are sampled: the first one after the
      overlap, and the ends of windows. */
  ghost predicate Decisive(snapshot: Snapshot, t: int) {
    var c := snapshot.config;
    t == c.overlapEnd + 1 || (WindowEnds(snapshot, t) && c.overlapStart - MINUTE < t <= c.overlapEnd + MINUTE)
  }

  ghost predicate ReachableWhenDecisive(snapshot: Snapshot, id: nat) {
    forall t :: Decisive(snapshot, t) ==> ReachableAt(snapshot, id, t)
  }

  lemma DecisiveInstants(snapshot: Snapshot, id: nat)
    ensures var c := snapshot.config;
      ReachableWhenDecisive(snapshot, id) <==>
        ReachableAt(snapshot, id, c.overlapEnd + 1)
        && ReachableAtEnds(snapshot, id, c.overlapStart - MINUTE, c.overlapEnd + MINUTE)
  {
    assert Decisive(snapshot, snapshot.config.overlapEnd + 1);
  }

  ghost predicate ReachableOverSpan(snapshot: Snapshot, id: nat) {
    ReachableThroughout(snapshot, id, snapshot.config.overlapStart - MINUTE, snapshot.config.overlapEnd + MINUTE)
  }

  /** From a minute before the overlap to a minute after it, a service is reachable throughout if and only if it is
      at the first two sampled instants and at every decisive one. */
  lemma OverSpanExactly(snapshot: Snapshot, id: nat)
    requires DistinctBy(snapshot.services, ServiceId) && snapshot.config.overlapStart < snapshot.config.overlapEnd
    ensures ReachableOverSpan(snapshot, id) <==>
            && ReachableAt(snapshot, id, snapshot.config.overlapStart - MINUTE)
            && ReachableAt(snapshot, id, snapshot.config.overlapStart)
            && ReachableWhenDecisive(snapshot, id)
  {
    var start, end := snapshot.config.overlapStart, snapshot.config.overlapEnd;
    ThroughoutPhaseExactly(snapshot, id, start - MINUTE, start - 1);
    ThroughoutPhaseExactly(snapshot, id, start, end);
    ThroughoutPhaseExactly(snapshot, id, end + 1, end + MINUTE);
    DecisiveInstants(snapshot, id);
  }

  /** When the explanation says that all paths remain reachable before, during and after the overlap, that is true of
      the whole span if and only if every active service is also reachable at every decisive instant. */
  lemma AllReachableTrueExactly(snapshot: Snapshot)
    requires DistinctBy(snapshot.services, ServiceId) && snapshot.config.overlapStart < snapshot.config.overlapEnd
    requires SimulationOf(snapshot).explanation == AllReachable
    ensures (forall id :: ActiveService(snapshot, id) ==> ReachableOverSpan(snapshot, id)) <==>
            (forall id :: ActiveService(snapshot, id) ==> ReachableWhenDecisive(snapshot, id))
  {
    ExplanationAccurate(snapshot);
    var start := snapshot.config.overlapStart;
    assert SixInstants(snapshot.config)[0] in Instants(snapshot.config);
    assert SixInstants(snapshot.config)[1] in Instants(snapshot.config);
    forall id | ActiveService(snapshot, id)
      ensures ReachableOverSpan(snapshot, id) <==> ReachableWhenDecisive(snapshot, id)
    {
      OverSpanExactly(snapshot, id);
      assert ReachableAt(snapshot, id, start - MINUTE) && ReachableAt(snapshot, id, start);
    }
  }
}
