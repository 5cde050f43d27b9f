/** The frozen input of a rollover scenario: how it is put in canonical form and when it is accepted.
    Instants are integers, in nanoseconds since the zero time of the program's clock. */
module Snapshots {
  import opened Ordered
  import opened Graphs

  const VERSION := "trust-path-window-v1.0.0"
  const ZERO_TIME := 0

  datatype ChainState = Imported | Validated | Deprecated | Revoked

  datatype ServiceState = Active | Inactive

  datatype AnchorSnapshot = AnchorSnapshot(
    id: nat, code: string, state: string, notBefore: int, notAfter: int, revoked: bool)

  datatype ChainSnapshot = ChainSnapshot(
    id: nat, code: string, anchorId: nat, leafSubject: string,
    validFrom: int, validTo: int, state: ChainState, validationValid: bool)

  datatype ServiceSnapshot = ServiceSnapshot(
    id: nat, code: string, chainId: nat, trustAnchorIds: seq<nat>, dependencyIds: seq<nat>,
    criticality: string, state: ServiceState)

  datatype ScenarioConfig = ScenarioConfig(
    name: string, oldAnchorId: nat, newAnchorId: nat, overlapStart: int, overlapEnd: int,
    candidateChainIds: seq<nat>, simulationTime: int)

  datatype Snapshot = Snapshot(
    algorithmVersion: string, config: ScenarioConfig,
    anchors: seq<AnchorSnapshot>, chains: seq<ChainSnapshot>, services: seq<ServiceSnapshot>)

  function AnchorId(a: AnchorSnapshot): int { a.id }

  function ChainId(c: ChainSnapshot): int { c.id }

  function ServiceId(s: ServiceSnapshot): int { s.id }

  // ---------- lookup tables; a repeated identifier keeps its last entry ----------

  function ServicesById(services: seq<ServiceSnapshot>): map<nat, ServiceSnapshot> {
    if services == [] then map[]
    else
      var last := services[|services| - 1];
      ServicesById(services[..|services| - 1])[last.id := last]
  }

  function ChainsById(chains: seq<ChainSnapshot>): map<nat, ChainSnapshot> {
    if chains == [] then map[]
    else
      var last := chains[|chains| - 1];
      ChainsById(chains[..|chains| - 1])[last.id := last]
  }

  function GraphOf(byId: map<nat, ServiceSnapshot>): Graph {
    map id | id in byId :: byId[id].dependencyIds
  }

  function DependencyGraph(services: seq<ServiceSnapshot>): Graph {
    GraphOf(ServicesById(services))
  }

  lemma {:induction false} ServicesByIdSound(services: seq<ServiceSnapshot>)
    ensures forall id :: id in ServicesById(services) ==>
      ServicesById(services)[id] in services && ServicesById(services)[id].id == id
    ensures forall s :: s in services ==> s.id in ServicesById(services)
  {
    if services != [] {
      ServicesByIdSound(services[..|services| - 1]);
    }
  }

  lemma {:induction false} ServicesByIdExact(services: seq<ServiceSnapshot>, s: ServiceSnapshot)
    requires DistinctBy(services, ServiceId) && s in services
    ensures s.id in ServicesById(services) && ServicesById(services)[s.id] == s
  {
    ServicesByIdSound(services);
    var t := ServicesById(services)[s.id];
    var i :| 0 <= i < |services| && services[i] == s;
    var j :| 0 <= j < |services| && services[j] == t;
    assert i == j;
  }

  lemma {:induction false} ChainsByIdSound(chains: seq<ChainSnapshot>)
    ensures forall id :: id in ChainsById(chains) ==>
      ChainsById(chains)[id] in chains && ChainsById(chains)[id].id == id
    ensures forall c :: c in chains ==> c.id in ChainsById(chains)
  {
    if chains != [] {
      ChainsByIdSound(chains[..|chains| - 1]);
    }
  }

  lemma {:induction false} ChainsByIdExact(chains: seq<ChainSnapshot>, c: ChainSnapshot)
    requires DistinctBy(chains, ChainId) && c in chains
    ensures c.id in ChainsById(chains) && ChainsById(chains)[c.id] == c
  {
    ChainsByIdSound(chains);
    var d := ChainsById(chains)[c.id];
    var i :| 0 <= i < |chains| && chains[i] == c;
    var j :| 0 <= j < |chains| && chains[j] == d;
    assert i == j;
  }

  // ---------- canonical form ----------

  function Normalised(s: ServiceSnapshot): ServiceSnapshot {
    s.(trustAnchorIds := CanonicalIds(s.trustAnchorIds), dependencyIds := CanonicalIds(s.dependencyIds))
  }

  function NormalisedAll(services: seq<ServiceSnapshot>): seq<ServiceSnapshot> {
    seq(|services|, i requires 0 <= i < |services| => Normalised(services[i]))
  }

  /** `r` freezes the given input: every list sorted by identifier, nothing added or lost. */
  ghost predicate Freezes(r: Snapshot, config: ScenarioConfig,
                          anchors: seq<AnchorSnapshot>, chains: seq<ChainSnapshot>, services: seq<ServiceSnapshot>) {
    && r.algorithmVersion == VERSION
    && r.config == config.(candidateChainIds := CanonicalIds(config.candidateChainIds))
    && SortedBy(r.anchors, AnchorId) && multiset(r.anchors) == multiset(anchors)
    && SortedBy(r.chains, ChainId) && multiset(r.chains) == multiset(chains)
    && SortedBy(r.services, ServiceId) && (DistinctBy(services, ServiceId) ==> DistinctBy(r.services, ServiceId))
    && |r.services| == |services| && SameElements(r.services, NormalisedAll(services))
  }

  method NewSnapshot(config: ScenarioConfig, anchors: array<AnchorSnapshot>, chains: array<ChainSnapshot>,
                     services: array<ServiceSnapshot>) returns (r: Snapshot)
    modifies anchors, chains, services
    ensures Freezes(r, config, old(anchors[..]), old(chains[..]), old(services[..]))
    ensures r.anchors == anchors[..] && r.chains == chains[..] && r.services == services[..]
  {
    var candidates := SortedUnique(config.candidateChainIds);
    SortSlice(anchors, AnchorId);
    SortSlice(chains, ChainId);
    SortSlice(services, ServiceId);
    ghost var sorted := services[..];
    label Sorted:
    for i := 0 to services.Length
      invariant forall j :: 0 <= j < services.Length ==>
        services[j] == if j < i then Normalised(sorted[j]) else sorted[j]
      invariant anchors[..] == old@Sorted(anchors[..]) && chains[..] == old@Sorted(chains[..])
    {
      var trust := SortedUnique(services[i].trustAnchorIds);
      var dependencies := SortedUnique(services[i].dependencyIds);
      services[i] := services[i].(trustAnchorIds := trust, dependencyIds := dependencies);
    }
    assert services[..] == NormalisedAll(sorted);
    SameMultisetSameElements(sorted, old(services[..]));
    NormalisedElements(sorted, old(services[..]));
    if DistinctBy(old(services[..]), ServiceId) {
      SortedRearrangementIsStrict(sorted, old(services[..]), ServiceId);
    }
    r := Snapshot(VERSION, config.(candidateChainIds := candidates), anchors[..], chains[..], services[..]);
  }

  lemma NormalisedElements(a: seq<ServiceSnapshot>, b: seq<ServiceSnapshot>)
    requires SameElements(a, b)
    ensures SameElements(NormalisedAll(a), NormalisedAll(b))
  {
    NormalisedSubset(a, b);
    NormalisedSubset(b, a);
  }

  lemma NormalisedSubset(a: seq<ServiceSnapshot>, b: seq<ServiceSnapshot>)
    requires forall x :: x in a ==> x in b
    ensures forall x :: x in NormalisedAll(a) ==> x in NormalisedAll(b)
  {
    forall x | x in NormalisedAll(a) ensures x in NormalisedAll(b) {
      var i :| 0 <= i < |a| && NormalisedAll(a)[i] == x;
      assert a[i] in b;
      var j :| 0 <= j < |b| && b[j] == a[i];
      assert NormalisedAll(b)[j] == x;
    }
  }

  /** The two services differ at most in the order and repetition of their trust and dependency lists. */
  ghost predicate SameService(x: ServiceSnapshot, y: ServiceSnapshot) {
    && x.(trustAnchorIds := y.trustAnchorIds, dependencyIds := y.dependencyIds) == y
    && SameElements(x.trustAnchorIds, y.trustAnchorIds)
    && SameElements(x.dependencyIds, y.dependencyIds)
  }

  ghost predicate EachHasTwin(a: seq<ServiceSnapshot>, b: seq<ServiceSnapshot>) {
    forall x :: x in a ==> exists y :: y in b && SameService(x, y)
  }

  ghost predicate DistinctInput(anchors: seq<AnchorSnapshot>, chains: seq<ChainSnapshot>,
                                services: seq<ServiceSnapshot>) {
    DistinctBy(anchors, AnchorId) && DistinctBy(chains, ChainId) && DistinctBy(services, ServiceId)
  }

  lemma SameServiceSameNormal(x: ServiceSnapshot, y: ServiceSnapshot)
    requires SameService(x, y)
    ensures Normalised(x) == Normalised(y)
  {
    CanonicalIdsCharacterised(CanonicalIds(x.trustAnchorIds), y.trustAnchorIds);
    CanonicalIdsCharacterised(CanonicalIds(x.dependencyIds), y.dependencyIds);
  }

  lemma TwinsNormaliseInto(a: seq<ServiceSnapshot>, b: seq<ServiceSnapshot>)
    requires EachHasTwin(a, b)
    ensures forall x :: x in NormalisedAll(a) ==> x in NormalisedAll(b)
  {
    forall x | x in NormalisedAll(a) ensures x in NormalisedAll(b) {
      var i :| 0 <= i < |a| && NormalisedAll(a)[i] == x;
      assert a[i] in a;
      var y :| y in b && SameService(a[i], y);
      SameServiceSameNormal(a[i], y);
      var j :| 0 <= j < |b| && b[j] == y;
      assert NormalisedAll(b)[j] == x;
    }
  }

  /** What `Freezes` says when identifiers are distinct: strict order, and membership alone decides. */
  lemma FrozenStrictly(r: Snapshot, config: ScenarioConfig,
                       anchors: seq<AnchorSnapshot>, chains: seq<ChainSnapshot>, services: seq<ServiceSnapshot>)
    requires Freezes(r, config, anchors, chains, services) && DistinctInput(anchors, chains, services)
    ensures StrictBy(r.anchors, AnchorId) && SameElements(r.anchors, anchors)
    ensures StrictBy(r.chains, ChainId) && SameElements(r.chains, chains)
    ensures StrictBy(r.services, ServiceId) && SameElements(r.services, NormalisedAll(services))
  {
    SortedRearrangementIsStrict(r.anchors, anchors, AnchorId);
    SameMultisetSameElements(r.anchors, anchors);
    SortedRearrangementIsStrict(r.chains, chains, ChainId);
    SameMultisetSameElements(r.chains, chains);
  }

  /** Freezing is a canonical form: it does not depend on the order of the rows, nor on the order and
      repetition of identifiers in the candidate, trust and dependency lists. */
  lemma FreezingIsCanonical(
    r1: Snapshot, c1: ScenarioConfig, a1: seq<AnchorSnapshot>, h1: seq<ChainSnapshot>, s1: seq<ServiceSnapshot>,
    r2: Snapshot, c2: ScenarioConfig, a2: seq<AnchorSnapshot>, h2: seq<ChainSnapshot>, s2: seq<ServiceSnapshot>)
    requires Freezes(r1, c1, a1, h1, s1) && DistinctInput(a1, h1, s1)
    requires Freezes(r2, c2, a2, h2, s2) && DistinctInput(a2, h2, s2)
    requires c1.(candidateChainIds := c2.candidateChainIds) == c2
             && SameElements(c1.candidateChainIds, c2.candidateChainIds)
    requires SameElements(a1, a2) && SameElements(h1, h2) && EachHasTwin(s1, s2) && EachHasTwin(s2, s1)
    ensures r1 == r2
  {
    CanonicalIdsCharacterised(CanonicalIds(c1.candidateChainIds), c2.candidateChainIds);
    FrozenStrictly(r1, c1, a1, h1, s1);
    FrozenStrictly(r2, c2, a2, h2, s2);
    TwinsNormaliseInto(s1, s2);
    TwinsNormaliseInto(s2, s1);
    StrictOrderIsUnique(r1.anchors, r2.anchors, AnchorId);
    StrictOrderIsUnique(r1.chains, r2.chains, ChainId);
    StrictOrderIsUnique(r1.services, r2.services, ServiceId);
  }

  /** Freezing a frozen snapshot again changes nothing. */
  lemma FreezingIsIdempotent(r: Snapshot, config: ScenarioConfig,
                             anchors: seq<AnchorSnapshot>, chains: seq<ChainSnapshot>, services: seq<ServiceSnapshot>,
                             again: Snapshot)
    requires Freezes(r, config, anchors, chains, services) && DistinctInput(anchors, chains, services)
    requires Freezes(again, r.config, r.anchors, r.chains, r.services)
    ensures again == r
  {
    FrozenStrictly(r, config, anchors, chains, services);
    forall s | s in r.services ensures Normalised(s) == s {
      var i :| 0 <= i < |services| && NormalisedAll(services)[i] == s;
      CanonicalIdsCharacterised(s.trustAnchorIds, s.trustAnchorIds);
      CanonicalIdsCharacterised(s.dependencyIds, s.dependencyIds);
    }
    assert NormalisedAll(r.services) == r.services;
    CanonicalIdsCharacterised(r.config.candidateChainIds, r.config.candidateChainIds);
    FrozenStrictly(again, r.config, r.anchors, r.chains, r.services);
    StrictOrderIsUnique(r.anchors, again.anchors, AnchorId);
    StrictOrderIsUnique(r.chains, again.chains, ChainId);
    StrictOrderIsUnique(r.services, again.services, ServiceId);
  }
}
