/** What is lost because only the first page of the chain listing is frozen. The listing is ordered by the end of the
    window, and then by descending identifier. */
module ListingPages {
  import opened Ordered
  import opened Graphs
  import opened Snapshots
  import opened Validation
  import opened Direct
  import opened Propagation
  import opened Simulation
  import opened Impact
  import opened Monotonicity
  import opened Freezing

  ghost predicate InListingOrder(listed: seq<ChainSnapshot>) {
    forall i, j :: 0 <= i < j < |listed| ==>
      listed[i].validTo < listed[j].validTo || (listed[i].validTo == listed[j].validTo && listed[i].id > listed[j].id)
  }

  /** The chain exists but is not frozen. */
  ghost predicate Lost(listed: seq<ChainSnapshot>, id: nat) {
    Holds(listed, id) && !Holds(FirstPage(listed), id)
  }

  lemma FirstAreOnPage(listed: seq<ChainSnapshot>, k: nat)
    requires k < |listed|
    ensures k < PAGE_SIZE ==> Holds(FirstPage(listed), listed[k].id)
  {
    if k < PAGE_SIZE {
      assert FirstPage(listed)[k] == listed[k];
    }
  }

  /** A chain is lost exactly when its place in the listing is beyond the first page, and every lost chain is valid
      at least as long as every chain that is frozen. */
  lemma LaterPagesAreLost(listed: seq<ChainSnapshot>, id: nat)
    requires DistinctBy(listed, ChainId) && InListingOrder(listed)
    ensures Lost(listed, id) <==> exists k :: PAGE_SIZE <= k < |listed| && listed[k].id == id
    ensures Lost(listed, id) ==>
      forall c, d :: c in FirstPage(listed) && d in listed && d.id == id ==> c.validTo <= d.validTo
  {
    var page := FirstPage(listed);
    if k :| PAGE_SIZE <= k < |listed| && listed[k].id == id {
      assert listed[k] in listed;
      assert forall i :: 0 <= i < |page| ==> page[i] == listed[i] && ChainId(listed[i]) != ChainId(listed[k]);
    }
    if Lost(listed, id) {
      var c :| c in listed && c.id == id;
      var k :| 0 <= k < |listed| && listed[k] == c;
      FirstAreOnPage(listed, k);
      forall a, d | a in page && d in listed && d.id == id ensures a.validTo <= d.validTo {
        var i :| 0 <= i < |page| && page[i] == a;
        var j :| 0 <= j < |listed| && listed[j] == d;
        assert ChainId(listed[j]) == ChainId(listed[k]);
      }
    }
  }

  /** The same input frozen with the first page of the listing, and with all of it. */
  ghost predicate FrozenBothWays(page: Snapshot, all: Snapshot, config: ScenarioConfig, anchors: seq<AnchorSnapshot>,
                                 listed: seq<ChainSnapshot>, services: seq<ServiceSnapshot>) {
    && Freezes(page, config, anchors, FirstPage(listed), services) && Freezes(all, config, anchors, listed, services)
    && DistinctInput(anchors, listed, services)
  }

  ghost predicate SameChain(a: Chains, b: Chains, id: nat) {
    id in a && id in b && a[id] == b[id]
  }

  lemma FrozenChains(page: Snapshot, all: Snapshot, config: ScenarioConfig, anchors: seq<AnchorSnapshot>,
                     listed: seq<ChainSnapshot>, services: seq<ServiceSnapshot>)
    requires FrozenBothWays(page, all, config, anchors, listed, services)
    ensures page.config == all.config && page.services == all.services && DistinctBy(page.services, ServiceId)
    ensures forall id :: id in ChainsById(all.chains) <==> Holds(listed, id)
    ensures forall id :: id in ChainsById(page.chains) <==> Holds(FirstPage(listed), id)
    ensures forall id :: id in ChainsById(page.chains) ==>
            SameChain(ChainsById(page.chains), ChainsById(all.chains), id)
  {
    assert DistinctBy(FirstPage(listed), ChainId);
    FrozenStrictly(page, config, anchors, FirstPage(listed), services);
    FrozenStrictly(all, config, anchors, listed, services);
    StrictOrderIsUnique(page.services, all.services, ServiceId);
    ChainsByIdSound(page.chains);
    ChainsByIdSound(all.chains);
    forall id | id in ChainsById(page.chains)
      ensures SameChain(ChainsById(page.chains), ChainsById(all.chains), id)
    {
      ChainsByIdExact(all.chains, ChainsById(page.chains)[id]);
    }
  }

  /** Under the first page, a service keeps its direct paths unless its own configured chain is lost. */
  lemma OwnChainDecides(page: Snapshot, all: Snapshot, s: ServiceSnapshot, at: int)
    requires page.config == all.config && CandidatesPresent(page, |page.config.candidateChainIds|)
    requires forall id :: id in ChainsById(page.chains) ==>
             SameChain(ChainsById(page.chains), ChainsById(all.chains), id)
    ensures DirectlyReachable(s, page.config, at, ChainsById(page.chains)) <==>
            s.chainId in ChainsById(page.chains) && DirectlyReachable(s, all.config, at, ChainsById(all.chains))
  {
    var config, some, every := page.config, ChainsById(page.chains), ChainsById(all.chains);
    ChainsByIdSound(page.chains);
    if s.chainId in some && DirectlyReachable(s, config, at, every) {
      var c :| c in Considered(s, config) && Acceptable(s, config, at, every, c);
      if c != s.chainId {
        assert c in [s.chainId] + config.candidateChainIds;
        var i :| 0 <= i < |config.candidateChainIds| && config.candidateChainIds[i] == c;
        assert HasChain(page, config.candidateChainIds[i]);
      }
      assert SameChain(some, every, c) && SameChain(some, every, s.chainId);
      assert Acceptable(s, config, at, some, c);
    }
    if DirectlyReachable(s, config, at, some) {
      var c :| c in Considered(s, config) && Acceptable(s, config, at, some, c);
      assert SameChain(some, every, c) && SameChain(some, every, s.chainId);
      assert Acceptable(s, config, at, every, c);
    }
  }

  /** An active service in the closure of `id` whose configured chain is lost. */
  ghost predicate DependsOnLost(snapshot: Snapshot, listed: seq<ChainSnapshot>, id: nat) {
    exists s :: s in snapshot.services && s.state.Active? && Reaches(DependencyGraph(snapshot.services), id, s.id)
                && Lost(listed, s.chainId)
  }

  lemma PageReachability(page: Snapshot, all: Snapshot, config: ScenarioConfig, anchors: seq<AnchorSnapshot>,
                         listed: seq<ChainSnapshot>, services: seq<ServiceSnapshot>, id: nat, at: int)
    requires FrozenBothWays(page, all, config, anchors, listed, services) && WellFormed(page)
    ensures ReachableAt(page, id, at) <==> ReachableAt(all, id, at) && !DependsOnLost(page, listed, id)
  {
    FrozenChains(page, all, config, anchors, listed, services);
    var g := DependencyGraph(page.services);
    forall v | Reaches(g, id, v)
      ensures Healthy(EvidenceTable(page, at), v) <==>
              Healthy(EvidenceTable(all, at), v) && !OwnChainLost(page, listed, v)
    {
      HealthyUnderPage(page, all, listed, at, v);
    }
    LostInClosure(page, listed, id);
  }

  ghost predicate OwnChainLost(snapshot: Snapshot, listed: seq<ChainSnapshot>, v: nat) {
    exists s :: s in snapshot.services && s.id == v && s.state.Active? && Lost(listed, s.chainId)
  }

  lemma LostInClosure(snapshot: Snapshot, listed: seq<ChainSnapshot>, id: nat)
    ensures DependsOnLost(snapshot, listed, id) <==>
            exists v :: Reaches(DependencyGraph(snapshot.services), id, v) && OwnChainLost(snapshot, listed, v)
  {
    if DependsOnLost(snapshot, listed, id) {
      var s :| s in snapshot.services && s.state.Active? && Lost(listed, s.chainId)
        && Reaches(DependencyGraph(snapshot.services), id, s.id);
      assert OwnChainLost(snapshot, listed, s.id);
    }
  }

  lemma HealthyUnderPage(page: Snapshot, all: Snapshot, listed: seq<ChainSnapshot>, at: int, v: nat)
    requires page.config == all.config && page.services == all.services && DistinctBy(page.services, ServiceId)
    requires CandidatesPresent(page, |page.config.candidateChainIds|)
    requires forall id :: id in ChainsById(all.chains) <==> Holds(listed, id)
    requires forall id :: id in ChainsById(page.chains) <==> Holds(FirstPage(listed), id)
    requires forall id :: id in ChainsById(page.chains) ==>
             SameChain(ChainsById(page.chains), ChainsById(all.chains), id)
    ensures Healthy(EvidenceTable(page, at), v) <==>
            Healthy(EvidenceTable(all, at), v) && !OwnChainLost(page, listed, v)
  {
    HealthyExactly(page, at, v);
    HealthyExactly(all, at, v);
    if s :| s in page.services && s.id == v && s.state.Active? {
      OwnChainDecides(page, all, s, at);
      forall t | t in page.services && t.id == v ensures t == s {
        ServicesByIdExact(page.services, t);
        ServicesByIdExact(page.services, s);
      }
    }
  }

  /** What the truncation adds to a report, exactly: every active service with a lost chain in its dependency closure,
      at every critical instant. Nothing is ever taken from the report. */
  lemma PageAddsExactly(page: Snapshot, all: Snapshot, config: ScenarioConfig, anchors: seq<AnchorSnapshot>,
                        listed: seq<ChainSnapshot>, services: seq<ServiceSnapshot>, id: nat, at: int)
    requires FrozenBothWays(page, all, config, anchors, listed, services) && WellFormed(page)
    ensures Listed(SimulationOf(page).affected, id, at) <==>
            || Listed(SimulationOf(all).affected, id, at)
            || (at in Instants(page.config) && ActiveService(page, id) && DependsOnLost(page, listed, id))
  {
    FrozenChains(page, all, config, anchors, listed, services);
    PageReachability(page, all, config, anchors, listed, services, id, at);
    AffectedExactly(page, id, at);
    AffectedExactly(all, id, at);
  }
}
