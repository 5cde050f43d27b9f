/** What the reported evidence says, in terms of the columns of the frozen input alone. */
module Evidence {
  import opened Ordered
  import opened Graphs
  import opened Snapshots
  import opened Validation
  import opened Direct
  import opened Propagation
  import opened Simulation
  import opened Impact
  import opened Monotonicity

  // ---------- which chains serve a service ----------

  /** Chain `id` carries the service at instant `t`: it is the service's own chain or a candidate, stands for the
      same leaf as its own chain, is in use, valid and verified, and leads to an anchor that is in force and trusted. */
  ghost predicate Serves(snapshot: Snapshot, s: ServiceSnapshot, t: int, id: nat) {
    var config, chains := snapshot.config, ChainsById(snapshot.chains);
    && id > 0 && (id == s.chainId || id in config.candidateChainIds)
    && id in chains && s.chainId in chains && chains[id].leafSubject == chains[s.chainId].leafSubject
    && (chains[id].state.Imported? || chains[id].state.Validated?)
    && chains[id].validFrom <= t < chains[id].validTo && chains[id].validationValid
    && InForce(config, t, chains[id].anchorId) && chains[id].anchorId in s.trustAnchorIds
  }

  ghost predicate Served(snapshot: Snapshot, s: ServiceSnapshot, t: int) {
    exists id :: Serves(snapshot, s, t, id)
  }

  lemma ServesExactly(snapshot: Snapshot, s: ServiceSnapshot, t: int, id: nat)
    ensures Serves(snapshot, s, t, id) <==>
            id in Considered(s, snapshot.config) && Acceptable(s, snapshot.config, t, ChainsById(snapshot.chains), id)
  {
    assert id in [s.chainId] + snapshot.config.candidateChainIds
      <==> id == s.chainId || id in snapshot.config.candidateChainIds;
    if id in ChainsById(snapshot.chains) {
      ActiveAnchorsInForce(snapshot.config, t, ChainsById(snapshot.chains)[id].anchorId);
    }
  }

  lemma ServedExactly(snapshot: Snapshot, s: ServiceSnapshot, t: int)
    ensures Served(snapshot, s, t) <==> DirectlyReachable(s, snapshot.config, t, ChainsById(snapshot.chains))
  {
    forall id ensures Serves(snapshot, s, t, id) <==>
      id in Considered(s, snapshot.config) && Acceptable(s, snapshot.config, t, ChainsById(snapshot.chains), id)
    {
      ServesExactly(snapshot, s, t, id);
    }
  }

  /** `v` is an active service that is served at instant `t`. */
  ghost predicate ActiveAndServed(snapshot: Snapshot, v: nat, t: int) {
    exists s :: s in snapshot.services && s.id == v && s.state.Active? && Served(snapshot, s, t)
  }

  /** A service is reachable exactly when everything in its dependency closure is active, served and on no cycle. */
  lemma ReachableExactly(snapshot: Snapshot, id: nat, t: int)
    requires DistinctBy(snapshot.services, ServiceId)
    ensures ReachableAt(snapshot, id, t) <==>
            forall v :: Reaches(DependencyGraph(snapshot.services), id, v) ==>
              ActiveAndServed(snapshot, v, t) && !OnCycle(DependencyGraph(snapshot.services), v)
  {
    forall v ensures Healthy(EvidenceTable(snapshot, t), v) <==> ActiveAndServed(snapshot, v, t) {
      HealthyIsServed(snapshot, v, t);
    }
  }

  lemma HealthyIsServed(snapshot: Snapshot, v: nat, t: int)
    requires DistinctBy(snapshot.services, ServiceId)
    ensures Healthy(EvidenceTable(snapshot, t), v) <==> ActiveAndServed(snapshot, v, t)
  {
    HealthyExactly(snapshot, t, v);
    forall s ensures Served(snapshot, s, t) <==> DirectlyReachable(s, snapshot.config, t, ChainsById(snapshot.chains)) {
      ServedExactly(snapshot, s, t);
    }
  }

  // ---------- entries ----------

  /** The entry names the least chain that serves the service, and its anchor, whether or not the service is reachable;
      it names none if there is none. */
  ghost predicate TellsSelection(snapshot: Snapshot, s: ServiceSnapshot, t: int, e: ServiceEvidence) {
    if Served(snapshot, s, t) then
      && Serves(snapshot, s, t, e.selectedChain)
      && (forall id :: Serves(snapshot, s, t, id) ==> e.selectedChain <= id)
      && e.selectedAnchor == ChainsById(snapshot.chains)[e.selectedChain].anchorId
    else
      e.selectedChain == 0 && e.selectedAnchor == 0
  }

  lemma DirectTellsSelection(snapshot: Snapshot, s: ServiceSnapshot, t: int)
    ensures var e := DirectEvidence(s, snapshot.config, t, ChainsById(snapshot.chains));
      TellsSelection(snapshot, s, t, e) && (e.reachable <==> Served(snapshot, s, t))
  {
    DirectExact(s, snapshot.config, t, ChainsById(snapshot.chains));
    ServedExactly(snapshot, s, t);
    forall id ensures Serves(snapshot, s, t, id) <==>
      id in Considered(s, snapshot.config) && Acceptable(s, snapshot.config, t, ChainsById(snapshot.chains), id)
    {
      ServesExactly(snapshot, s, t, id);
    }
  }

  /** The search changes nothing of the direct evidence but, on failure, the verdict and its reason. */
  lemma SearchKeepsSelection(direct: Evidences, g: Graph, id: nat)
    requires id in direct
    ensures var item := Resolve(direct, g, id, {}).item;
      && item.code == direct[id].code
      && item.selectedChain == direct[id].selectedChain && item.selectedAnchor == direct[id].selectedAnchor
      && (item.reachable ==> item.reason == direct[id].reason && direct[id].reachable)
      && (!direct[id].reachable ==> item.reason == direct[id].reason)
      && (direct[id].reachable && !item.reachable ==> item.reason.Upstream?)
  {
  }

  /** The entry `e` of evidence at instant `t` tells the truth about the service `s`. */
  ghost predicate TruthfulEntry(snapshot: Snapshot, s: ServiceSnapshot, t: int, e: ServiceEvidence) {
    && s in snapshot.services && s.state.Active? && e.serviceId == s.id && e.code == s.code
    && TellsSelection(snapshot, s, t, e)
    && (e.reachable <==> ReachableAt(snapshot, s.id, t))
    && (e.reachable ==> e.reason == PathReachable)
    && (!e.reachable && Served(snapshot, s, t) ==> e.reason.Upstream?)
  }

  lemma OutcomeIsTruthful(snapshot: Snapshot, s: ServiceSnapshot, t: int)
    requires DistinctBy(snapshot.services, ServiceId) && s in snapshot.services && s.state.Active?
    ensures TruthfulEntry(snapshot, s, t, Outcome(snapshot, t, s.id).item)
  {
    var config, chains := snapshot.config, ChainsById(snapshot.chains);
    TableEntry(snapshot.services, config, t, chains, s);
    OutcomeIdentifies(snapshot, t, s.id);
    SearchKeepsSelection(EvidenceTable(snapshot, t), DependencyGraph(snapshot.services), s.id);
    ResolveExact(EvidenceTable(snapshot, t), DependencyGraph(snapshot.services), s.id, {});
    DirectExact(s, config, t, chains);
    DirectTellsSelection(snapshot, s, t);
    var e, own := Outcome(snapshot, t, s.id).item, DirectEvidence(s, config, t, chains);
    assert TellsSelection(snapshot, s, t, own) ==> TellsSelection(snapshot, s, t, e);
  }

  lemma EntryIsOutcome(snapshot: Snapshot, k: nat, j: nat)
    requires k < |SimulationOf(snapshot).evidence| && j < |SimulationOf(snapshot).evidence[k].services|
    ensures var t, e := SimulationOf(snapshot).evidence[k].at, SimulationOf(snapshot).evidence[k].services[j];
      e == Outcome(snapshot, t, e.serviceId).item && e.serviceId == SortedIds(ActiveIds(snapshot.services))[j]
  {
    OutcomeIdentifies(snapshot, Instants(snapshot.config)[k], SortedIds(ActiveIds(snapshot.services))[j]);
  }

  /** Every entry of the evidence is about an active service and tells the truth about it: its code, the least chain
      that serves it and the anchor of that chain, and whether it is reachable. */
  lemma EntriesAreTruthful(snapshot: Snapshot, k: nat, j: nat)
    requires DistinctBy(snapshot.services, ServiceId)
    requires k < |SimulationOf(snapshot).evidence| && j < |SimulationOf(snapshot).evidence[k].services|
    ensures var e := SimulationOf(snapshot).evidence[k];
      exists s :: TruthfulEntry(snapshot, s, e.at, e.services[j])
  {
    var t, ids := Instants(snapshot.config)[k], SortedIds(ActiveIds(snapshot.services));
    SortedIdsSorts(ActiveIds(snapshot.services));
    SameMultisetSameElements(ids, ActiveIds(snapshot.services));
    ActiveIdsDistinct(snapshot.services);
    assert ids[j] in ids;
    var s :| s in snapshot.services && s.id == ids[j] && s.state.Active?;
    OutcomeIsTruthful(snapshot, s, t);
    EntryIsOutcome(snapshot, k, j);
    assert TruthfulEntry(snapshot, s, t, SimulationOf(snapshot).evidence[k].services[j]);
  }

  lemma EntryReachable(snapshot: Snapshot, k: nat, j: nat)
    requires DistinctBy(snapshot.services, ServiceId)
    requires k < |SimulationOf(snapshot).evidence| && j < |SimulationOf(snapshot).evidence[k].services|
    ensures var at, e := SimulationOf(snapshot).evidence[k].at, SimulationOf(snapshot).evidence[k].services[j];
      e.reachable <==> ReachableAt(snapshot, e.serviceId, at)
  {
    EntriesAreTruthful(snapshot, k, j);
  }

  lemma ReachableBelow(snapshot: Snapshot, id: nat, v: nat, at: int)
    requires DistinctBy(snapshot.services, ServiceId)
    requires ReachableAt(snapshot, id, at) && Reaches(DependencyGraph(snapshot.services), id, v)
    ensures ReachableAt(snapshot, v, at) && ActiveService(snapshot, v)
  {
    ReachableExactly(snapshot, id, at);
    forall u | Reaches(DependencyGraph(snapshot.services), v, u)
      ensures Reaches(DependencyGraph(snapshot.services), id, u)
    {
      ReachesTransitive(DependencyGraph(snapshot.services), id, v, u);
    }
  }

  /** Everything that a reachable entry's service depends on has a reachable entry at the same instant. */
  lemma ClosureHasEntries(snapshot: Snapshot, k: nat, j: nat, v: nat) returns (i: nat)
    requires DistinctBy(snapshot.services, ServiceId)
    requires k < |SimulationOf(snapshot).evidence| && j < |SimulationOf(snapshot).evidence[k].services|
    requires SimulationOf(snapshot).evidence[k].services[j].reachable
    requires Reaches(DependencyGraph(snapshot.services), SimulationOf(snapshot).evidence[k].services[j].serviceId, v)
    ensures i < |SimulationOf(snapshot).evidence[k].services|
    ensures var e := SimulationOf(snapshot).evidence[k].services[i]; e.serviceId == v && e.reachable
  {
    var at := Instants(snapshot.config)[k];
    EntryReachable(snapshot, k, j);
    ReachableBelow(snapshot, SimulationOf(snapshot).evidence[k].services[j].serviceId, v, at);
    EvidenceAtInstant(snapshot, at);
    i :| 0 <= i < |EvidenceAt(snapshot, at).services| && EvidenceAt(snapshot, at).services[i].serviceId == v;
    EntryReachable(snapshot, k, i);
  }

  /** The evidence of an instant names the anchors in force: the old one before the overlap, the new one after it, and
      both, in ascending order, in between. */
  lemma EvidenceNamesAnchors(snapshot: Snapshot, k: nat)
    requires k < |SimulationOf(snapshot).evidence|
    ensures var c, e := snapshot.config, SimulationOf(snapshot).evidence[k];
      && (e.at < c.overlapStart ==> e.activeAnchorIds == [c.oldAnchorId])
      && (e.at >= c.overlapStart && e.at > c.overlapEnd ==> e.activeAnchorIds == [c.newAnchorId])
      && (c.overlapStart <= e.at <= c.overlapEnd && c.oldAnchorId < c.newAnchorId ==>
            e.activeAnchorIds == [c.oldAnchorId, c.newAnchorId])
      && (c.overlapStart <= e.at <= c.overlapEnd && c.newAnchorId < c.oldAnchorId ==>
            e.activeAnchorIds == [c.newAnchorId, c.oldAnchorId])
  {
    var c, at := snapshot.config, Instants(snapshot.config)[k];
    forall a ensures a in ActiveAnchors(c, at) <==> InForce(c, at, a) {
      ActiveAnchorsInForce(c, at, a);
    }
    AscendingOfInForce(c, at, [c.oldAnchorId]);
    AscendingOfInForce(c, at, [c.newAnchorId]);
    AscendingOfInForce(c, at, [c.oldAnchorId, c.newAnchorId]);
    AscendingOfInForce(c, at, [c.newAnchorId, c.oldAnchorId]);
  }

  lemma AscendingOfInForce(c: ScenarioConfig, at: int, ids: seq<nat>)
    ensures StrictlyAscending(ids) && (forall a :: a in ids <==> a in ActiveAnchors(c, at)) ==>
      AscendingIds(ActiveAnchors(c, at)) == ids
  {
    if StrictlyAscending(ids) && (forall a :: a in ids <==> a in ActiveAnchors(c, at)) {
      AscendingCharacterised(AscendingIds(ActiveAnchors(c, at)), ActiveAnchors(c, at));
      AscendingCharacterised(ids, ActiveAnchors(c, at));
    }
  }

  // ---------- what the removal of an anchor does ----------

  /** An active service that does not trust the new anchor is reported at every critical instant after the overlap, and
      one that does not trust the old anchor at every critical instant before it. */
  lemma MissingTrustIsReported(snapshot: Snapshot, s: ServiceSnapshot, t: int)
    requires DistinctBy(snapshot.services, ServiceId) && snapshot.config.overlapStart < snapshot.config.overlapEnd
    requires s in snapshot.services && s.state.Active? && t in Instants(snapshot.config)
    requires || (t > snapshot.config.overlapEnd && snapshot.config.newAnchorId !in s.trustAnchorIds)
             || (t < snapshot.config.overlapStart && snapshot.config.oldAnchorId !in s.trustAnchorIds)
    ensures Listed(SimulationOf(snapshot).affected, s.id, t)
  {
    assert !Served(snapshot, s, t);
    ReachesSelf(DependencyGraph(snapshot.services), s.id);
    ReachableExactly(snapshot, s.id, t);
    assert !ActiveAndServed(snapshot, s.id, t) by {
      forall r | r in snapshot.services && r.id == s.id ensures r == s {
        ServicesByIdExact(snapshot.services, r);
        ServicesByIdExact(snapshot.services, s);
      }
    }
    AffectedExactly(snapshot, s.id, t);
  }

  /** So there is such a report whatever else the scenario holds: some instant after the overlap and one before it are
      always sampled. */
  lemma RemovalIsAlwaysSeen(snapshot: Snapshot, s: ServiceSnapshot)
    requires DistinctBy(snapshot.services, ServiceId) && snapshot.config.overlapStart < snapshot.config.overlapEnd
    requires s in snapshot.services && s.state.Active?
    ensures var affected, e := SimulationOf(snapshot).affected, SimulationOf(snapshot).explanation;
      && (snapshot.config.newAnchorId !in s.trustAnchorIds ==>
            Listed(affected, s.id, snapshot.config.overlapEnd + MINUTE) && e.FailuresFound? && e.afterOverlap)
      && (snapshot.config.oldAnchorId !in s.trustAnchorIds ==>
            Listed(affected, s.id, snapshot.config.overlapStart - MINUTE) && e.FailuresFound? && e.beforeOverlap)
  {
    var c := snapshot.config;
    InstantsExactly(c, c.overlapEnd + MINUTE);
    InstantsExactly(c, c.overlapStart - MINUTE);
    if c.newAnchorId !in s.trustAnchorIds {
      MissingTrustIsReported(snapshot, s, c.overlapEnd + MINUTE);
    }
    if c.oldAnchorId !in s.trustAnchorIds {
      MissingTrustIsReported(snapshot, s, c.overlapStart - MINUTE);
    }
  }

  // ---------- why a service is not served ----------

  /** The reason is that of the first check the chain fails, and names the chain, or for a missing trust the service and
      the anchor. */
  ghost predicate FitsRefusal(snapshot: Snapshot, s: ServiceSnapshot, t: int, c: ChainSnapshot, r: ChainReason) {
    var inUse := c.state.Imported? || c.state.Validated?;
    var valid := c.validFrom <= t < c.validTo;
    var inForce := InForce(snapshot.config, t, c.anchorId);
    match r
    case ChainNotActive(code) => code == c.code && !inUse
    case OutsideWindow(code) => code == c.code && inUse && !valid
    case NotValidated(code) => code == c.code && inUse && valid && !c.validationValid
    case AnchorUnavailable(code) => code == c.code && inUse && valid && c.validationValid && !inForce
    case AnchorNotTrusted(code, anchorId) =>
      && code == s.code && anchorId == c.anchorId
      && inUse && valid && c.validationValid && inForce && c.anchorId !in s.trustAnchorIds
  }

  /** Another chain for the leaf of the service, or its own. */
  ghost predicate StandsFor(snapshot: Snapshot, s: ServiceSnapshot, id: nat) {
    var chains := ChainsById(snapshot.chains);
    && id > 0 && (id == s.chainId || id in snapshot.config.candidateChainIds)
    && id in chains && s.chainId in chains && chains[id].leafSubject == chains[s.chainId].leafSubject
  }

  /** `reasons` gives, in ascending order, one fitting reason for every chain of `ids` that stands for the service. */
  ghost predicate RefusesAll(snapshot: Snapshot, s: ServiceSnapshot, t: int, ids: seq<nat>, reasons: seq<ChainReason>) {
    && StrictlyAscending(ids) && |reasons| == |ids|
    && (forall id :: id in ids ==> id in ChainsById(snapshot.chains))
    && forall i :: 0 <= i < |ids| ==> FitsRefusal(snapshot, s, t, ChainsById(snapshot.chains)[ids[i]], reasons[i])
  }

  lemma RefusalFits(snapshot: Snapshot, s: ServiceSnapshot, t: int, c: ChainSnapshot)
    requires !Usable(s, snapshot.config, t, c)
    ensures var r := Refusal(s, snapshot.config, t, c); |r| == 1 && FitsRefusal(snapshot, s, t, c, r[0])
  {
    ActiveAnchorsInForce(snapshot.config, t, c.anchorId);
  }

  ghost function Standing(snapshot: Snapshot, s: ServiceSnapshot, ids: seq<nat>): seq<nat> {
    if ids == [] then []
    else (if Matches(s, ChainsById(snapshot.chains), ids[0]) then [ids[0]] else []) + Standing(snapshot, s, ids[1..])
  }

  lemma {:induction false} StandingExactly(snapshot: Snapshot, s: ServiceSnapshot, ids: seq<nat>)
    requires StrictlyAscending(ids)
    ensures StrictlyAscending(Standing(snapshot, s, ids))
    ensures forall id :: id in Standing(snapshot, s, ids) <==> id in ids && Matches(s, ChainsById(snapshot.chains), id)
  {
    if ids != [] {
      StandingExactly(snapshot, s, ids[1..]);
      assert forall id :: id in ids <==> id == ids[0] || id in ids[1..];
      var rest := Standing(snapshot, s, ids[1..]);
      assert forall i :: 0 <= i < |rest| ==> rest[i] in rest;
      assert forall i :: 0 <= i < |ids[1..]| ==> ids[0] < ids[1..][i];
    }
  }

  lemma {:induction false} RefusalsFit(snapshot: Snapshot, s: ServiceSnapshot, t: int, ids: seq<nat>)
    requires StrictlyAscending(ids)
    requires forall id :: id in ids && Matches(s, ChainsById(snapshot.chains), id) ==>
               !Usable(s, snapshot.config, t, ChainsById(snapshot.chains)[id])
    ensures RefusesAll(snapshot, s, t, Standing(snapshot, s, ids),
                       Refusals(s, snapshot.config, t, ChainsById(snapshot.chains), ids))
  {
    StandingExactly(snapshot, s, ids);
    if ids != [] {
      RefusalsFit(snapshot, s, t, ids[1..]);
      if Matches(s, ChainsById(snapshot.chains), ids[0]) {
        RefusalFits(snapshot, s, t, ChainsById(snapshot.chains)[ids[0]]);
      }
    }
  }

  /** The reason of an entry whose service is not served, exactly: its own chain is missing, or it has no chain that
      stands for it, or every such chain is refused for the first check it fails. */
  ghost predicate TellsWhyUnserved(snapshot: Snapshot, s: ServiceSnapshot, t: int, reason: Reason) {
    match reason
    case ChainMissing => s.chainId !in ChainsById(snapshot.chains)
    case NoMatchingCandidate =>
      s.chainId in ChainsById(snapshot.chains) && forall id :: !StandsFor(snapshot, s, id)
    case AllRefused(reasons) =>
      && s.chainId in ChainsById(snapshot.chains) && reasons != []
      && exists ids :: (forall id :: id in ids <==> StandsFor(snapshot, s, id))
                       && RefusesAll(snapshot, s, t, ids, reasons)
    case _ => false
  }

  lemma UnservedExplained(snapshot: Snapshot, s: ServiceSnapshot, t: int)
    requires DistinctBy(snapshot.services, ServiceId) && s in snapshot.services && s.state.Active?
    requires !Served(snapshot, s, t)
    ensures TellsWhyUnserved(snapshot, s, t, Outcome(snapshot, t, s.id).item.reason)
  {
    var config, chains := snapshot.config, ChainsById(snapshot.chains);
    TableEntry(snapshot.services, config, t, chains, s);
    DirectTellsSelection(snapshot, s, t);
    SearchKeepsSelection(EvidenceTable(snapshot, t), DependencyGraph(snapshot.services), s.id);
    DirectFailureExplained(s, config, t, chains);
    if s.chainId in chains {
      RefusedInOrder(snapshot, s, t);
    }
  }

  lemma RefusedInOrder(snapshot: Snapshot, s: ServiceSnapshot, t: int)
    requires s.chainId in ChainsById(snapshot.chains) && !Served(snapshot, s, t)
    ensures var reasons := Refusals(s, snapshot.config, t, ChainsById(snapshot.chains), Considered(s, snapshot.config));
      TellsWhyUnserved(snapshot, s, t, if reasons == [] then NoMatchingCandidate else AllRefused(reasons))
  {
    var chains, all := ChainsById(snapshot.chains), Considered(s, snapshot.config);
    var ids, reasons := Standing(snapshot, s, all), Refusals(s, snapshot.config, t, chains, all);
    forall id | id in all && Matches(s, chains, id) ensures !Usable(s, snapshot.config, t, chains[id]) {
      ServesExactly(snapshot, s, t, id);
    }
    StandingExactly(snapshot, s, all);
    RefusalsFit(snapshot, s, t, all);
    forall id ensures id in ids <==> StandsFor(snapshot, s, id) {
      assert id in [s.chainId] + snapshot.config.candidateChainIds
        <==> id == s.chainId || id in snapshot.config.candidateChainIds;
    }
  }

  /** Every unreachable entry gives its reason: why its service is not served if it is not, and an upstream dependency
      if it is. */
  lemma EntriesGiveReasons(snapshot: Snapshot, k: nat, j: nat)
    requires DistinctBy(snapshot.services, ServiceId)
    requires k < |SimulationOf(snapshot).evidence| && j < |SimulationOf(snapshot).evidence[k].services|
    ensures var t, e := SimulationOf(snapshot).evidence[k].at, SimulationOf(snapshot).evidence[k].services[j];
      exists s :: TruthfulEntry(snapshot, s, t, e)
                  && (!Served(snapshot, s, t) ==> TellsWhyUnserved(snapshot, s, t, e.reason))
  {
    var t, e := SimulationOf(snapshot).evidence[k].at, SimulationOf(snapshot).evidence[k].services[j];
    EntriesAreTruthful(snapshot, k, j);
    var s :| TruthfulEntry(snapshot, s, t, e);
    if !Served(snapshot, s, t) {
      UnservedExplained(snapshot, s, t);
      EntryIsOutcome(snapshot, k, j);
    }
  }

  // ---------- the reported reason ----------

  /** A reported pair and the entry for it give the same code and reason. */
  lemma ReportMatchesEntry(snapshot: Snapshot, i: nat, k: nat, j: nat)
    requires i < |SimulationOf(snapshot).affected|
    requires k < |SimulationOf(snapshot).evidence| && j < |SimulationOf(snapshot).evidence[k].services|
    requires DistinctBy(snapshot.services, ServiceId)
    requires SimulationOf(snapshot).affected[i].at == SimulationOf(snapshot).evidence[k].at
    requires SimulationOf(snapshot).affected[i].serviceId == SimulationOf(snapshot).evidence[k].services[j].serviceId
    ensures var a, e := SimulationOf(snapshot).affected[i], SimulationOf(snapshot).evidence[k].services[j];
      !e.reachable && a.reason == e.reason && a.code == e.code
  {
    var f := Failures(snapshot, Instants(snapshot.config))[i];
    assert f in Failures(snapshot, Instants(snapshot.config));
    FailuresExact(snapshot, Instants(snapshot.config), f);
    EntryIsOutcome(snapshot, k, j);
    OutcomeIsTruthful(snapshot, f.service, f.at);
  }

  /** The codes that a nested reason mentions, from the outside in. */
  function UpstreamCodes(r: Reason): seq<string> {
    match r
    case Upstream(code, inner) => [code] + UpstreamCodes(inner)
    case _ => []
  }

  lemma {:induction false} FoldedCodes(direct: Evidences, p: seq<nat>)
    requires |p| > 0 && (p[|p| - 1] in direct ==> !direct[p[|p| - 1]].reason.Upstream?)
    ensures var names := UpstreamCodes(FoldedReason(direct, p));
      |names| == |p| - 1 && forall k :: 0 <= k < |names| ==> names[k] == CodeOf(direct, p[k + 1])
  {
    if |p| > 1 {
      FoldedCodes(direct, p[1..]);
      assert UpstreamCodes(FoldedReason(direct, p))
          == [CodeOf(direct, p[1])] + UpstreamCodes(FoldedReason(direct, p[1..]));
    }
  }

  lemma CodeInTable(snapshot: Snapshot, t: int, v: nat)
    requires DistinctBy(snapshot.services, ServiceId) && v in EvidenceTable(snapshot, t)
    ensures v in ServicesById(snapshot.services) && ServicesById(snapshot.services)[v] in snapshot.services
    ensures ServicesById(snapshot.services)[v].state.Active? && ServicesById(snapshot.services)[v].id == v
    ensures EvidenceTable(snapshot, t)[v].code == ServicesById(snapshot.services)[v].code
  {
    TableKeys(snapshot.services, snapshot.config, t, ChainsById(snapshot.chains), v);
    ActiveIdsDistinct(snapshot.services);
    var s :| s in snapshot.services && s.id == v && s.state.Active?;
    ServicesByIdExact(snapshot.services, s);
    TableEntry(snapshot.services, snapshot.config, t, ChainsById(snapshot.chains), s);
    DirectExact(s, snapshot.config, t, ChainsById(snapshot.chains));
  }

  /** What is said of the last service of a reported path: why it is not served if it is active, and that it is
      absent or inactive if it is not active. */
  ghost predicate TellsRoot(snapshot: Snapshot, s: ServiceSnapshot, t: int, root: Reason) {
    if s.state.Active? then !Served(snapshot, s, t) && TellsWhyUnserved(snapshot, s, t, root)
    else root == AbsentOrInactive
  }

  lemma LastOfWitness(snapshot: Snapshot, t: int, p: seq<nat>)
    requires DistinctBy(snapshot.services, ServiceId)
    requires IsWitness(EvidenceTable(snapshot, t), DependencyGraph(snapshot.services), p)
    requires p[|p| - 1] in ServicesById(snapshot.services)
    ensures var s := ServicesById(snapshot.services)[p[|p| - 1]];
      && TellsRoot(snapshot, s, t, RootReason(FoldedReason(EvidenceTable(snapshot, t), p)))
      && (s.state.Active? <==> s.id in EvidenceTable(snapshot, t)) && s.id == p[|p| - 1]
  {
    var table, last := EvidenceTable(snapshot, t), p[|p| - 1];
    var s := ServicesById(snapshot.services)[last];
    ServicesByIdSound(snapshot.services);
    RootOfFolded(table, p);
    HealthyIsServed(snapshot, last, t);
    if last in table {
      CodeInTable(snapshot, t, last);
      TableReasons(snapshot.services, snapshot.config, t, ChainsById(snapshot.chains), last);
      UnservedExplained(snapshot, s, t);
      SearchKeepsSelection(table, DependencyGraph(snapshot.services), last);
    } else {
      NoEvidenceMeansInactive(snapshot, t, last);
      var r :| r in snapshot.services && r.id == last && r.state.Inactive?;
      ServicesByIdExact(snapshot.services, r);
    }
  }

  /** In a closed graph the nested reason of a report mentions exactly the codes of the broken path after its first,
      and inside it gives the reason of the last service of the path; an inactive last service is mentioned without
      its code. */
  lemma ReportedReasonExactly(snapshot: Snapshot, i: nat)
    requires WellFormed(snapshot) && DistinctBy(snapshot.services, ServiceId)
    requires Closed(DependencyGraph(snapshot.services)) && i < |SimulationOf(snapshot).broken|
    ensures var a, codes := SimulationOf(snapshot).affected[i], SimulationOf(snapshot).broken[i].serviceCodes;
      var p, names := Outcome(snapshot, a.at, a.serviceId).path, UpstreamCodes(a.reason);
      && |codes| == |p| == |names| + 1 && p[|p| - 1] in ServicesById(snapshot.services)
      && var last := ServicesById(snapshot.services)[p[|p| - 1]];
         && TellsRoot(snapshot, last, a.at, RootReason(a.reason))
         && forall k :: 0 <= k < |names| ==>
              names[k] == if k == |names| - 1 && !last.state.Active? then "" else codes[k + 1]
  {
    var a := SimulationOf(snapshot).affected[i];
    var table, p := EvidenceTable(snapshot, a.at), Outcome(snapshot, a.at, a.serviceId).path;
    assert IsWitness(table, DependencyGraph(snapshot.services), p) && a.reason == FoldedReason(table, p) by {
      ReportedPathIsWitness(snapshot, i);
    }
    ReportedPathIsNamed(snapshot, i);
    LastOfWitness(snapshot, a.at, p);
    if p[|p| - 1] in table {
      TableReasons(snapshot.services, snapshot.config, a.at, ChainsById(snapshot.chains), p[|p| - 1]);
    }
    FoldedCodes(table, p);
    forall k | 0 <= k < |p| && p[k] in table
      ensures CodeOf(table, p[k]) == ServicesById(snapshot.services)[p[k]].code
    {
      CodeInTable(snapshot, a.at, p[k]);
    }
    assert forall k :: 0 <= k < |p| - 1 ==> Healthy(table, p[k]);
  }
}
