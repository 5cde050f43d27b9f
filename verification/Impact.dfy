/** What a simulation result means. Throughout, snapshots hold services with distinct identifiers. */
module Impact {
  import opened Ordered
  import opened Graphs
  import opened Snapshots
  import opened Validation
  import opened Direct
  import opened Propagation
  import opened Simulation

  /** Every service in the dependency closure of `id`, itself included, is active, directly reachable and on no
      cycle. */
  ghost predicate ReachableAt(snapshot: Snapshot, id: nat, at: int) {
    Clear(EvidenceTable(snapshot, at), DependencyGraph(snapshot.services), id, {})
  }

  ghost predicate ActiveService(snapshot: Snapshot, id: nat) {
    exists s :: s in snapshot.services && s.id == id && s.state.Active?
  }

  ghost predicate Listed(affected: seq<AffectedService>, id: nat, at: int) {
    exists i :: 0 <= i < |affected| && affected[i].serviceId == id && affected[i].at == at
  }

  // ---------- which pairs are reported ----------

  ghost predicate IsFailure(snapshot: Snapshot, f: Failure) {
    && f.service in snapshot.services && f.service.state.Active?
    && f.outcome == Outcome(snapshot, f.at, f.service.id) && !f.outcome.item.reachable
  }

  lemma {:induction false} FailuresAtExact(snapshot: Snapshot, at: int, services: seq<ServiceSnapshot>, f: Failure)
    requires forall s :: s in services ==> s in snapshot.services
    ensures f in FailuresAt(snapshot, at, services) <==> IsFailure(snapshot, f) && f.at == at && f.service in services
  {
    if services != [] {
      var front, last := services[..|services| - 1], services[|services| - 1];
      assert services == front + [last];
      assert forall s :: s in services <==> s in front || s == last;
      FailuresAtExact(snapshot, at, front, f);
    }
  }

  lemma {:induction false} FailuresExact(snapshot: Snapshot, points: seq<int>, f: Failure)
    ensures f in Failures(snapshot, points) <==> IsFailure(snapshot, f) && f.at in points
  {
    if points != [] {
      var front, last := points[..|points| - 1], points[|points| - 1];
      assert forall t :: t in points <==> t in front || t == last;
      FailuresExact(snapshot, front, f);
      FailuresAtExact(snapshot, last, snapshot.services, f);
    }
  }

  /** A pair of service and instant is reported exactly when the instant is critical, the service is active
      and something in its dependency closure is not reachable then. */
  lemma AffectedExactly(snapshot: Snapshot, id: nat, at: int)
    ensures Listed(SimulationOf(snapshot).affected, id, at) <==>
            at in Instants(snapshot.config) && ActiveService(snapshot, id) && !ReachableAt(snapshot, id, at)
  {
    var points, affected := Instants(snapshot.config), SimulationOf(snapshot).affected;
    var fs := Failures(snapshot, points);
    ResolveExact(EvidenceTable(snapshot, at), DependencyGraph(snapshot.services), id, {});
    if Listed(affected, id, at) {
      var i :| 0 <= i < |affected| && affected[i].serviceId == id && affected[i].at == at;
      assert fs[i] in fs;
      FailuresExact(snapshot, points, fs[i]);
    }
    if at in points && ActiveService(snapshot, id) && !ReachableAt(snapshot, id, at) {
      var s :| s in snapshot.services && s.id == id && s.state.Active?;
      var f := Failure(s, at, Outcome(snapshot, at, id));
      FailuresExact(snapshot, points, f);
      var i :| 0 <= i < |fs| && fs[i] == f;
      assert affected[i] == ToAffected(f);
    }
  }

  /** If an upstream service is reported at an instant, so is every active service that depends on it,
      at any distance. */
  lemma DependentsAreAffected(snapshot: Snapshot, upstream: nat, id: nat, at: int)
    requires Listed(SimulationOf(snapshot).affected, upstream, at)
    requires ActiveService(snapshot, id) && Reaches(DependencyGraph(snapshot.services), id, upstream)
    ensures Listed(SimulationOf(snapshot).affected, id, at)
  {
    AffectedExactly(snapshot, upstream, at);
    AffectedExactly(snapshot, id, at);
    ResolveExact(EvidenceTable(snapshot, at), DependencyGraph(snapshot.services), upstream, {});
    ResolveExact(EvidenceTable(snapshot, at), DependencyGraph(snapshot.services), id, {});
    FailurePropagates(EvidenceTable(snapshot, at), DependencyGraph(snapshot.services), upstream, id);
  }

  // ---------- the three outputs agree ----------

  ghost predicate DistinctPairs(fs: seq<Failure>) {
    forall i, j :: 0 <= i < j < |fs| ==> fs[i].service.id != fs[j].service.id || fs[i].at != fs[j].at
  }

  ghost predicate AllAt(fs: seq<Failure>, services: seq<ServiceSnapshot>, at: int) {
    forall f :: f in fs ==> f.service in services && f.at == at
  }

  lemma {:induction false} FailuresAtAreAt(snapshot: Snapshot, at: int, services: seq<ServiceSnapshot>)
    ensures AllAt(FailuresAt(snapshot, at, services), services, at)
  {
    if services != [] {
      FailuresAtAreAt(snapshot, at, services[..|services| - 1]);
    }
  }

  lemma AppendDistinct(fs: seq<Failure>, f: Failure)
    requires DistinctPairs(fs) && forall g :: g in fs ==> g.service.id != f.service.id
    ensures DistinctPairs(fs + [f])
  {
    assert forall i :: 0 <= i < |fs| ==> fs[i] in fs;
  }

  lemma {:induction false} FailuresAtDistinct(snapshot: Snapshot, at: int, services: seq<ServiceSnapshot>)
    requires DistinctBy(services, ServiceId)
    ensures DistinctPairs(FailuresAt(snapshot, at, services)) && AllAt(FailuresAt(snapshot, at, services), services, at)
  {
    FailuresAtAreAt(snapshot, at, services);
    if services != [] {
      var front, last := services[..|services| - 1], services[|services| - 1];
      FailuresAtDistinct(snapshot, at, front);
      assert forall k :: 0 <= k < |front| ==> ServiceId(services[k]) != ServiceId(last) && front[k] == services[k];
      AppendDistinct(FailuresAt(snapshot, at, front), Failure(last, at, Outcome(snapshot, at, last.id)));
      assert FailuresAt(snapshot, at, front) + [] == FailuresAt(snapshot, at, front);
    }
  }

  lemma {:induction false} FailuresDistinct(snapshot: Snapshot, points: seq<int>)
    requires DistinctBy(snapshot.services, ServiceId) && StrictlyAscending(points)
    ensures DistinctPairs(Failures(snapshot, points))
    ensures forall f :: f in Failures(snapshot, points) ==> f.at in points
  {
    if points != [] {
      var front, last := points[..|points| - 1], points[|points| - 1];
      FailuresDistinct(snapshot, front);
      FailuresAtDistinct(snapshot, last, snapshot.services);
      assert forall k :: 0 <= k < |front| ==> front[k] < last;
      JoinDistinct(Failures(snapshot, front), FailuresAt(snapshot, last, snapshot.services), last);
    }
  }

  lemma JoinDistinct(fs: seq<Failure>, more: seq<Failure>, at: int)
    requires DistinctPairs(fs) && DistinctPairs(more)
    requires (forall f :: f in fs ==> f.at < at) && (forall f :: f in more ==> f.at == at)
    ensures DistinctPairs(fs + more)
  {
    forall i, j | 0 <= i < j < |fs + more|
      ensures (fs + more)[i].service.id != (fs + more)[j].service.id || (fs + more)[i].at != (fs + more)[j].at
    {
      if i < |fs| {
        assert fs[i] in fs;
      }
      if j >= |fs| {
        assert more[j - |fs|] in more;
      }
    }
  }

  lemma {:induction false} FirstCode(byId: map<nat, ServiceSnapshot>, path: seq<nat>)
    requires |path| > 0 && path[0] in byId
    ensures var codes := Codes(byId, path); |codes| > 0 && codes[0] == byId[path[0]].code
  {
    if |path| > 1 {
      FirstCode(byId, path[..|path| - 1]);
    }
  }

  /** A path through known services is reported code by code. */
  lemma {:induction false} CodesOfKnownPath(byId: map<nat, ServiceSnapshot>, path: seq<nat>)
    requires forall v :: v in path ==> v in byId
    ensures |Codes(byId, path)| == |path|
    ensures forall i :: 0 <= i < |path| ==> Codes(byId, path)[i] == byId[path[i]].code
  {
    if path != [] {
      var front := path[..|path| - 1];
      CodesOfKnownPath(byId, front);
      assert Codes(byId, path) == Codes(byId, front) + [byId[path[|path| - 1]].code];
    }
  }

  lemma PathStartsAt(direct: Evidences, g: Graph, id: nat)
    ensures var p := Resolve(direct, g, id, {}).path; |p| > 0 && p[0] == id
  {
  }

  ghost predicate DescribesService(snapshot: Snapshot, a: AffectedService) {
    exists s :: s in snapshot.services && s.state.Active? && s.id == a.serviceId && s.code == a.code
      && s.criticality == a.criticality
  }

  /** The lists of affected services and broken paths run in parallel, without repeating a pair; each entry describes an
      active service, whose code its path starts with. */
  lemma PathsMatchAffected(snapshot: Snapshot)
    requires DistinctBy(snapshot.services, ServiceId)
    ensures var r := SimulationOf(snapshot);
      && |r.affected| == |r.broken|
      && (forall i :: 0 <= i < |r.affected| ==>
            && r.broken[i].at == r.affected[i].at && r.broken[i].reason == r.affected[i].reason
            && |r.broken[i].serviceCodes| > 0 && r.broken[i].serviceCodes[0] == r.affected[i].code
            && DescribesService(snapshot, r.affected[i]))
      && forall i, j :: 0 <= i < j < |r.affected| ==>
            r.affected[i].serviceId != r.affected[j].serviceId || r.affected[i].at != r.affected[j].at
  {
    var affected := SimulationOf(snapshot).affected;
    var points := Instants(snapshot.config);
    var fs, r := Failures(snapshot, points), SimulationOf(snapshot);
    FailuresDistinct(snapshot, points);
    forall i, j | 0 <= i < j < |affected|
      ensures affected[i].serviceId != affected[j].serviceId || affected[i].at != affected[j].at {
      assert affected[i] == ToAffected(fs[i]) && affected[j] == ToAffected(fs[j]);
    }
    forall i | 0 <= i < |fs|
      ensures |r.broken[i].serviceCodes| > 0 && r.broken[i].serviceCodes[0] == r.affected[i].code
      ensures DescribesService(snapshot, r.affected[i])
    {
      var f := fs[i];
      assert f in fs;
      FailuresExact(snapshot, points, f);
      PathStartsAt(EvidenceTable(snapshot, f.at), DependencyGraph(snapshot.services), f.service.id);
      ServicesByIdExact(snapshot.services, f.service);
      FirstCode(ServicesById(snapshot.services), f.outcome.path);
    }
  }

  /** The evidence has one entry per critical instant, and at each instant one entry per active service,
      in ascending order of identifier; an entry is unreachable exactly when the pair is reported. */
  lemma EvidenceMatchesAffected(snapshot: Snapshot)
    requires DistinctBy(snapshot.services, ServiceId)
    ensures var r, points := SimulationOf(snapshot), Instants(snapshot.config);
      && |r.evidence| == |points| && UnreachableEntries(r.evidence) == |r.affected|
      && forall k :: 0 <= k < |points| ==>
           var e := r.evidence[k];
           && e.at == points[k] && StrictBy(e.services, EvidenceId)
           && (forall id :: ActiveService(snapshot, id) <==>
              exists j :: 0 <= j < |e.services| && e.services[j].serviceId == id)
           && forall j :: 0 <= j < |e.services| ==>
              (!e.services[j].reachable <==> Listed(r.affected, e.services[j].serviceId, e.at))
  {
    var r, points := SimulationOf(snapshot), Instants(snapshot.config);
    CountsAgree(snapshot);
    forall k | 0 <= k < |points|
      ensures var e := r.evidence[k];
        && StrictBy(e.services, EvidenceId)
        && (forall id :: ActiveService(snapshot, id) <==>
           exists j :: 0 <= j < |e.services| && e.services[j].serviceId == id)
        && forall j :: 0 <= j < |e.services| ==>
           (!e.services[j].reachable <==> Listed(r.affected, e.services[j].serviceId, e.at))
    {
      EvidenceAtInstant(snapshot, points[k]);
      assert points[k] in points;
    }
  }

  lemma EvidenceAtInstant(snapshot: Snapshot, at: int)
    requires DistinctBy(snapshot.services, ServiceId) && at in Instants(snapshot.config)
    ensures var e, affected := EvidenceAt(snapshot, at), SimulationOf(snapshot).affected;
      && StrictBy(e.services, EvidenceId)
      && (forall id :: ActiveService(snapshot, id) <==>
            exists j :: 0 <= j < |e.services| && e.services[j].serviceId == id)
      && forall j :: 0 <= j < |e.services| ==>
         (!e.services[j].reachable <==> Listed(affected, e.services[j].serviceId, at))
  {
    var ids, e := SortedIds(ActiveIds(snapshot.services)), EvidenceAt(snapshot, at);
    ActiveIdsDistinct(snapshot.services);
    SortedIdsSorts(ActiveIds(snapshot.services));
    SameMultisetSameElements(ids, ActiveIds(snapshot.services));
    SortedRearrangementIsStrict(ids, ActiveIds(snapshot.services), Itself);
    forall j | 0 <= j < |ids|
      ensures e.services[j].serviceId == ids[j]
      ensures !e.services[j].reachable <==> Listed(SimulationOf(snapshot).affected, ids[j], at)
    {
      OutcomeIdentifies(snapshot, at, ids[j]);
      AffectedExactly(snapshot, ids[j], at);
      ResolveExact(EvidenceTable(snapshot, at), DependencyGraph(snapshot.services), ids[j], {});
      assert ids[j] in ids;
      assert ActiveService(snapshot, ids[j]);
    }
    forall id ensures ActiveService(snapshot, id) <==>
      exists j :: 0 <= j < |e.services| && e.services[j].serviceId == id {
      assert ActiveService(snapshot, id) <==> id in ids;
    }
  }

  // ---------- counting ----------

  ghost function Unreachable(items: seq<ServiceEvidence>): nat {
    if items == [] then 0 else (if items[0].reachable then 0 else 1) + Unreachable(items[1..])
  }

  /** The number of unreachable entries in the evidence of all instants. */
  ghost function UnreachableEntries(evidence: seq<TimepointEvidence>): nat {
    if evidence == [] then 0
    else UnreachableEntries(evidence[..|evidence| - 1]) + Unreachable(evidence[|evidence| - 1].services)
  }

  /** The number of identifiers, repeated ones counted as often, whose service is not reachable. */
  ghost function Failing(snapshot: Snapshot, at: int, ids: seq<nat>): nat {
    if ids == [] then 0
    else (if Outcome(snapshot, at, ids[0]).item.reachable then 0 else 1) + Failing(snapshot, at, ids[1..])
  }

  lemma {:induction false} UnreachableItems(snapshot: Snapshot, at: int, ids: seq<nat>)
    ensures Unreachable(ItemsFor(snapshot, at, ids)) == Failing(snapshot, at, ids)
  {
    if ids != [] {
      UnreachableItems(snapshot, at, ids[1..]);
      assert ItemsFor(snapshot, at, ids)[1..] == ItemsFor(snapshot, at, ids[1..]);
    }
  }

  lemma {:induction false} FailingInserted(snapshot: Snapshot, at: int, x: nat, ids: seq<nat>)
    ensures Failing(snapshot, at, InsertRepeated(x, ids)) == Failing(snapshot, at, [x]) + Failing(snapshot, at, ids)
  {
    if ids != [] && x > ids[0] {
      FailingInserted(snapshot, at, x, ids[1..]);
      assert InsertRepeated(x, ids)[1..] == InsertRepeated(x, ids[1..]);
    } else {
      assert ([x] + ids)[1..] == ids;
    }
  }

  lemma {:induction false} FailingAppended(snapshot: Snapshot, at: int, ids: seq<nat>, x: nat)
    ensures Failing(snapshot, at, ids + [x]) == Failing(snapshot, at, ids) + Failing(snapshot, at, [x])
  {
    if ids == [] {
      assert ids + [x] == [x];
    } else {
      FailingAppended(snapshot, at, ids[1..], x);
      assert (ids + [x])[1..] == ids[1..] + [x];
    }
  }

  lemma {:induction false} FailingSorted(snapshot: Snapshot, at: int, ids: seq<nat>)
    ensures Failing(snapshot, at, SortedIds(ids)) == Failing(snapshot, at, ids)
  {
    if ids != [] {
      var front, last := ids[..|ids| - 1], ids[|ids| - 1];
      FailingSorted(snapshot, at, front);
      FailingInserted(snapshot, at, last, SortedIds(front));
      FailingAppended(snapshot, at, front, last);
      assert ids == front + [last];
    }
  }

  lemma {:induction false} FailuresAtCounted(snapshot: Snapshot, at: int, services: seq<ServiceSnapshot>)
    ensures |FailuresAt(snapshot, at, services)| == Failing(snapshot, at, ActiveIds(services))
  {
    if services != [] {
      var front, last := services[..|services| - 1], services[|services| - 1];
      FailuresAtCounted(snapshot, at, front);
      FailingAppended(snapshot, at, ActiveIds(front), last.id);
      assert ActiveIds(front) + [] == ActiveIds(front);
    }
  }

  lemma InstantCounted(snapshot: Snapshot, at: int)
    ensures |FailuresAt(snapshot, at, snapshot.services)| == Unreachable(EvidenceAt(snapshot, at).services)
  {
    var ids := ActiveIds(snapshot.services);
    FailuresAtCounted(snapshot, at, snapshot.services);
    FailingSorted(snapshot, at, ids);
    UnreachableItems(snapshot, at, SortedIds(ids));
  }

  lemma EvidenceOfLonger(snapshot: Snapshot, front: seq<int>, last: int)
    ensures UnreachableEntries(AllEvidence(snapshot, front + [last]))
            == UnreachableEntries(AllEvidence(snapshot, front)) + Unreachable(EvidenceAt(snapshot, last).services)
  {
    var longer := AllEvidence(snapshot, front + [last]);
    assert longer[..|longer| - 1] == AllEvidence(snapshot, front);
  }

  lemma {:induction false} FailuresCounted(snapshot: Snapshot, points: seq<int>)
    ensures |Failures(snapshot, points)| == UnreachableEntries(AllEvidence(snapshot, points))
  {
    if points != [] {
      var front, last := points[..|points| - 1], points[|points| - 1];
      assert points == front + [last];
      FailuresCounted(snapshot, front);
      InstantCounted(snapshot, last);
      EvidenceOfLonger(snapshot, front, last);
    }
  }

  /** As many pairs are reported, and as many paths, as the evidence has unreachable entries. */
  lemma CountsAgree(snapshot: Snapshot)
    ensures var r := SimulationOf(snapshot);
      |r.affected| == |r.broken| == UnreachableEntries(r.evidence)
  {
    FailuresCounted(snapshot, Instants(snapshot.config));
  }

  /** The explanation says that all is well exactly when no active service fails at a critical instant; otherwise
      both of its counts are the number of unreachable entries in the evidence, and its two clauses appear exactly
      when some service fails before, respectively after, the overlap. */
  lemma ExplanationAccurate(snapshot: Snapshot)
    ensures var e := SimulationOf(snapshot).explanation;
      && (e.AllReachable? <==>
         forall id, t :: t in Instants(snapshot.config) && ActiveService(snapshot, id) ==> ReachableAt(snapshot, id, t))
      && (e.FailuresFound? ==>
            && e.failures == e.paths == UnreachableEntries(SimulationOf(snapshot).evidence) > 0
            && (e.beforeOverlap <==> exists id, t :: t in Instants(snapshot.config) && t < snapshot.config.overlapStart
                                                     && ActiveService(snapshot, id) && !ReachableAt(snapshot, id, t))
            && (e.afterOverlap <==> exists id, t :: t in Instants(snapshot.config) && t > snapshot.config.overlapEnd
                                                    && ActiveService(snapshot, id) && !ReachableAt(snapshot, id, t)))
  {
    var affected := SimulationOf(snapshot).affected;
    CountsAgree(snapshot);
    forall id, t ensures Listed(affected, id, t) <==>
        t in Instants(snapshot.config) && ActiveService(snapshot, id) && !ReachableAt(snapshot, id, t) {
      AffectedExactly(snapshot, id, t);
    }
    forall i | 0 <= i < |affected| ensures Listed(affected, affected[i].serviceId, affected[i].at) {}
    if affected != [] {
      assert Listed(affected, affected[0].serviceId, affected[0].at);
    }
  }

  // ---------- the reported path ----------

  lemma TableReasons(services: seq<ServiceSnapshot>, config: ScenarioConfig, at: int, chains: Chains, id: nat)
    requires id in DirectTable(services, config, at, chains) && !DirectTable(services, config, at, chains)[id].reachable
    ensures var reason := DirectTable(services, config, at, chains)[id].reason;
      reason.ChainMissing? || reason.NoMatchingCandidate? || reason.AllRefused?
  {
    var last := services[|services| - 1];
    if last.state.Active? && last.id == id {
      DirectFailureExplained(last, config, at, chains);
    } else {
      TableReasons(services[..|services| - 1], config, at, chains, id);
    }
  }

  function RootReason(r: Reason): Reason {
    match r
    case Upstream(_, inner) => RootReason(inner)
    case _ => r
  }

  lemma {:induction false} RootOfFolded(direct: Evidences, p: seq<nat>)
    requires |p| > 0
    ensures var last := p[|p| - 1];
      RootReason(FoldedReason(direct, p))
      == RootReason(if last in direct then direct[last].reason else AbsentOrInactive)
  {
    if |p| > 1 {
      RootOfFolded(direct, p[1..]);
    }
  }

  /** Every reported path is the one witness of its service: a real dependency path without repeats, through services
      that are directly reachable, to one that is inactive, absent or directly unreachable; the reason is the
      last service's reason folded along it. The cycle branch of the search is never taken. */
  lemma ReportedPathIsWitness(snapshot: Snapshot, i: nat)
    requires WellFormed(snapshot) && DistinctBy(snapshot.services, ServiceId)
    requires i < |SimulationOf(snapshot).broken|
    ensures var r, g := SimulationOf(snapshot), DependencyGraph(snapshot.services);
      var table := EvidenceTable(snapshot, r.affected[i].at);
      var p := Outcome(snapshot, r.affected[i].at, r.affected[i].serviceId).path;
      && r.broken[i].serviceCodes == Codes(ServicesById(snapshot.services), p)
      && IsWitness(table, g, p) && p[0] == r.affected[i].serviceId
      && (forall q :: IsWitness(table, g, q) && q[0] == p[0] ==> q == p)
      && Walk(g, p) && (forall a, b :: 0 <= a < b < |p| ==> p[a] != p[b])
      && r.affected[i].reason == FoldedReason(table, p)
      && RootReason(r.affected[i].reason) != CycleEncountered
  {
    var points, g := Instants(snapshot.config), DependencyGraph(snapshot.services);
    var f := Failures(snapshot, points)[i];
    assert f in Failures(snapshot, points);
    FailuresExact(snapshot, points, f);
    var table, p := EvidenceTable(snapshot, f.at), f.outcome.path;
    ResolveGivesWitness(table, g, f.service.id, {});
    WitnessIsSimplePath(table, g, p);
    forall q | IsWitness(table, g, q) && q[0] == p[0] ensures q == p {
      WitnessUnique(table, g, p, q);
    }
    RootIsNoCycle(snapshot, f.at, p);
  }

  lemma RootIsNoCycle(snapshot: Snapshot, at: int, p: seq<nat>)
    requires IsWitness(EvidenceTable(snapshot, at), DependencyGraph(snapshot.services), p)
    ensures RootReason(FoldedReason(EvidenceTable(snapshot, at), p)) != CycleEncountered
  {
    var table, last := EvidenceTable(snapshot, at), p[|p| - 1];
    RootOfFolded(table, p);
    if last in table {
      TableReasons(snapshot.services, snapshot.config, at, ChainsById(snapshot.chains), last);
    }
  }

  /** In a snapshot whose dependency lists are in ascending order, as freezing leaves them, each step of a
      reported path goes to the least dependency that is not reachable. */
  lemma ReportedPathTakesLeast(snapshot: Snapshot, at: int, p: seq<nat>, k: nat, d: nat)
    requires WellFormed(snapshot) && IsWitness(EvidenceTable(snapshot, at), DependencyGraph(snapshot.services), p)
    requires k < |p| - 1 && StrictlyAscending(Succ(DependencyGraph(snapshot.services), p[k]))
    requires Edge(DependencyGraph(snapshot.services), p[k], d) && !ReachableAt(snapshot, d, at)
    ensures p[k + 1] <= d && !ReachableAt(snapshot, p[k + 1], at)
  {
    var table, g := EvidenceTable(snapshot, at), DependencyGraph(snapshot.services);
    UnreachableIsUnsound(snapshot, d, at);
    WitnessTakesLeast(table, g, p, k, d);
    assert NextBroken(table, g, p[k], p[k + 1]);
    UnreachableIsUnsound(snapshot, p[k + 1], at);
  }

  lemma UnreachableIsUnsound(snapshot: Snapshot, id: nat, at: int)
    requires WellFormed(snapshot)
    ensures ReachableAt(snapshot, id, at) <==>
            Sound(EvidenceTable(snapshot, at), DependencyGraph(snapshot.services), id)
  {
    SoundIsClear(EvidenceTable(snapshot, at), DependencyGraph(snapshot.services), id, {});
  }

  lemma NoEvidenceMeansInactive(snapshot: Snapshot, at: int, id: nat)
    requires DistinctBy(snapshot.services, ServiceId)
    requires id in ServicesById(snapshot.services) && id !in EvidenceTable(snapshot, at)
    ensures exists s :: s in snapshot.services && s.id == id && s.state.Inactive?
  {
    ServicesByIdSound(snapshot.services);
    TableKeys(snapshot.services, snapshot.config, at, ChainsById(snapshot.chains), id);
    ActiveIdsDistinct(snapshot.services);
    var s := ServicesById(snapshot.services)[id];
    assert s in snapshot.services && s.id == id;
    assert id !in ActiveIds(snapshot.services);
  }

  /** In a snapshot of a closed dependency graph, "absent or inactive" can only mean inactive. */
  lemma AbsentMeansInactive(snapshot: Snapshot, i: nat)
    requires WellFormed(snapshot) && DistinctBy(snapshot.services, ServiceId)
    requires Closed(DependencyGraph(snapshot.services))
    requires i < |SimulationOf(snapshot).broken|
    requires RootReason(SimulationOf(snapshot).affected[i].reason) == AbsentOrInactive
    ensures var a := SimulationOf(snapshot).affected[i]; var p := Outcome(snapshot, a.at, a.serviceId).path;
      |p| > 0 && exists s :: s in snapshot.services && s.id == p[|p| - 1] && s.state.Inactive?
  {
    var a, g := SimulationOf(snapshot).affected[i], DependencyGraph(snapshot.services);
    var table, p := EvidenceTable(snapshot, a.at), Outcome(snapshot, a.at, a.serviceId).path;
    assert |p| > 0 && Walk(g, p) && p[0] == a.serviceId && a.reason == FoldedReason(table, p) by {
      ReportedPathIsWitness(snapshot, i);
    }
    var last := p[|p| - 1];
    assert last !in table by {
      RootOfFolded(table, p);
      if last in table {
        assert !table[last].reachable by {
          ReportedPathIsWitness(snapshot, i);
        }
        TableReasons(snapshot.services, snapshot.config, a.at, ChainsById(snapshot.chains), last);
      }
    }
    assert last in g by {
      if |p| > 1 {
        assert Edge(g, p[|p| - 2], p[|p| - 1]);
      } else {
        ReportedServiceListed(snapshot, i);
      }
    }
    NoEvidenceMeansInactive(snapshot, a.at, last);
  }

  /** In a closed graph every service of a reported path is named, in order. */
  lemma ReportedPathIsNamed(snapshot: Snapshot, i: nat)
    requires WellFormed(snapshot) && DistinctBy(snapshot.services, ServiceId)
    requires Closed(DependencyGraph(snapshot.services))
    requires i < |SimulationOf(snapshot).broken|
    ensures var a, byId := SimulationOf(snapshot).affected[i], ServicesById(snapshot.services);
      var codes, p := SimulationOf(snapshot).broken[i].serviceCodes, Outcome(snapshot, a.at, a.serviceId).path;
      |codes| == |p| && forall k :: 0 <= k < |p| ==> p[k] in byId && codes[k] == byId[p[k]].code
  {
    var a, g := SimulationOf(snapshot).affected[i], DependencyGraph(snapshot.services);
    var p := Outcome(snapshot, a.at, a.serviceId).path;
    assert Walk(g, p) && p[0] == a.serviceId
      && SimulationOf(snapshot).broken[i].serviceCodes == Codes(ServicesById(snapshot.services), p) by {
      ReportedPathIsWitness(snapshot, i);
    }
    ReportedServiceListed(snapshot, i);
    forall k | 0 <= k < |p| ensures p[k] in g {
      if k > 0 {
        assert Edge(g, p[k - 1], p[(k - 1) + 1]);
      }
    }
    assert forall v :: v in p ==> v in ServicesById(snapshot.services);
    CodesOfKnownPath(ServicesById(snapshot.services), p);
  }

  lemma ReportedServiceListed(snapshot: Snapshot, i: nat)
    requires i < |SimulationOf(snapshot).affected|
    ensures SimulationOf(snapshot).affected[i].serviceId in DependencyGraph(snapshot.services)
  {
    var f := Failures(snapshot, Instants(snapshot.config))[i];
    assert f in Failures(snapshot, Instants(snapshot.config));
    FailuresExact(snapshot, Instants(snapshot.config), f);
    ServicesByIdSound(snapshot.services);
  }
}
