/** The validity window stored for an imported certificate chain, and what it means for a simulation. */
module ChainImport {
  import opened Graphs
  import opened Ordered
  import opened Snapshots
  import opened Direct
  import opened Propagation
  import opened Simulation
  import opened Impact
  import opened Monotonicity
  import opened Evidence

  /** A certificate's validity period; section 4.1.2.5 of RFC 5280 includes both ends. */
  datatype Period = Period(notBefore: int, notAfter: int)

  ghost predicate WithinPeriod(p: Period, t: int) {
    p.notBefore <= t <= p.notAfter
  }

  ghost predicate AllWithin(anchor: Period, certificates: seq<Period>, t: int) {
    WithinPeriod(anchor, t) && forall c :: c in certificates ==> WithinPeriod(c, t)
  }

  /** Narrows the anchor's period by each certificate of the bundle. The window holds exactly the instants at
      which the anchor and every certificate are valid. */
  method ImportWindow(anchor: Period, certificates: seq<Period>) returns (validFrom: int, validTo: int)
    ensures forall t :: validFrom <= t <= validTo <==> AllWithin(anchor, certificates, t)
    ensures validFrom == anchor.notBefore || exists c :: c in certificates && c.notBefore == validFrom
    ensures validTo == anchor.notAfter || exists c :: c in certificates && c.notAfter == validTo
    ensures validFrom >= anchor.notBefore && forall c :: c in certificates ==> validFrom >= c.notBefore
    ensures validTo <= anchor.notAfter && forall c :: c in certificates ==> validTo <= c.notAfter
  {
    validFrom, validTo := anchor.notBefore, anchor.notAfter;
    for i := 0 to |certificates|
      invariant validFrom == anchor.notBefore || exists j :: 0 <= j < i && certificates[j].notBefore == validFrom
      invariant validTo == anchor.notAfter || exists j :: 0 <= j < i && certificates[j].notAfter == validTo
      invariant validFrom >= anchor.notBefore && forall j :: 0 <= j < i ==> validFrom >= certificates[j].notBefore
      invariant validTo <= anchor.notAfter && forall j :: 0 <= j < i ==> validTo <= certificates[j].notAfter
    {
      if certificates[i].notBefore > validFrom {
        validFrom := certificates[i].notBefore;
      }
      if certificates[i].notAfter < validTo {
        validTo := certificates[i].notAfter;
      }
    }
    forall t ensures validFrom <= t <= validTo <==> AllWithin(anchor, certificates, t) {
      WindowIsIntersection(anchor, certificates, validFrom, validTo, t);
    }
  }

  lemma WindowIsIntersection(anchor: Period, certificates: seq<Period>, validFrom: int, validTo: int, t: int)
    requires validFrom == anchor.notBefore || exists c :: c in certificates && c.notBefore == validFrom
    requires validTo == anchor.notAfter || exists c :: c in certificates && c.notAfter == validTo
    requires validFrom >= anchor.notBefore && forall c :: c in certificates ==> validFrom >= c.notBefore
    requires validTo <= anchor.notAfter && forall c :: c in certificates ==> validTo <= c.notAfter
    ensures validFrom <= t <= validTo <==> AllWithin(anchor, certificates, t)
  {
  }

  /** Where a chain of a snapshot came from: the period of its anchor and those of its certificates. */
  datatype Origin = Origin(anchor: Period, certificates: seq<Period>)

  /** The chain carries the window computed when it was imported. */
  ghost predicate ImportedFrom(chain: ChainSnapshot, o: Origin) {
    forall t :: chain.validFrom <= t <= chain.validTo <==> AllWithin(o.anchor, o.certificates, t)
  }

  /** The simulator's window is the valid instants of anchor and certificates, less the right endpoint. */
  lemma WindowIsStricterAtTheEnd(chain: ChainSnapshot, o: Origin, t: int)
    requires ImportedFrom(chain, o)
    ensures chain.validFrom <= t < chain.validTo <==> AllWithin(o.anchor, o.certificates, t) && t != chain.validTo
  {
  }

  /** Although anchors are never checked for validity, a service that the simulation calls reachable uses, at that
      instant, a chain whose anchor and certificates are all valid; and so does everything it depends on. */
  lemma ReachableMeansCertificatesValid(snapshot: Snapshot, origins: map<nat, Origin>, id: nat, at: int, v: nat)
    requires DistinctBy(snapshot.services, ServiceId)
    requires forall c :: c in ChainsById(snapshot.chains) ==>
             c in origins && ImportedFrom(ChainsById(snapshot.chains)[c], origins[c])
    requires ReachableAt(snapshot, id, at) && Reaches(DependencyGraph(snapshot.services), id, v)
    ensures v in EvidenceTable(snapshot, at)
    ensures var c := EvidenceTable(snapshot, at)[v].selectedChain;
      c in origins && AllWithin(origins[c].anchor, origins[c].certificates, at)
  {
    var chains := ChainsById(snapshot.chains);
    HealthyExactly(snapshot, at, v);
    var s :| s in snapshot.services && s.id == v && s.state.Active?
      && DirectlyReachable(s, snapshot.config, at, chains);
    TableEntry(snapshot.services, snapshot.config, at, chains, s);
    DirectExact(s, snapshot.config, at, chains);
    var c := EvidenceTable(snapshot, at)[v].selectedChain;
    assert Acceptable(s, snapshot.config, at, chains, c);
    WindowIsStricterAtTheEnd(chains[c], origins[c], at);
  }

  ghost predicate CarriesWindows(snapshot: Snapshot, origins: map<nat, Origin>) {
    forall c :: c in ChainsById(snapshot.chains) ==>
      c in origins && ImportedFrom(ChainsById(snapshot.chains)[c], origins[c])
  }

  /** The chain was imported, and its anchor and all its certificates are valid at the instant. */
  ghost predicate ValidChain(origins: map<nat, Origin>, c: nat, at: int) {
    c in origins && AllWithin(origins[c].anchor, origins[c].certificates, at)
  }

  /** Whenever an entry of the evidence names a chain, that chain is valid at the instant of the entry. */
  lemma NamedChainIsValid(snapshot: Snapshot, origins: map<nat, Origin>, k: nat, j: nat)
    requires DistinctBy(snapshot.services, ServiceId) && CarriesWindows(snapshot, origins)
    requires k < |SimulationOf(snapshot).evidence| && j < |SimulationOf(snapshot).evidence[k].services|
    ensures var t, e := SimulationOf(snapshot).evidence[k].at, SimulationOf(snapshot).evidence[k].services[j];
      e.reachable || e.selectedChain != 0 ==> ValidChain(origins, e.selectedChain, t)
  {
    var t, e := SimulationOf(snapshot).evidence[k].at, SimulationOf(snapshot).evidence[k].services[j];
    EntriesAreTruthful(snapshot, k, j);
    var s :| TruthfulEntry(snapshot, s, t, e);
    if e.reachable {
      ReachesSelf(DependencyGraph(snapshot.services), s.id);
      OwnPathWhenReachable(snapshot, s, t);
    }
    if Served(snapshot, s, t) {
      var chain := ChainsById(snapshot.chains)[e.selectedChain];
      WindowIsStricterAtTheEnd(chain, origins[e.selectedChain], t);
    }
  }

  lemma OwnPathWhenReachable(snapshot: Snapshot, s: ServiceSnapshot, t: int)
    requires DistinctBy(snapshot.services, ServiceId) && s in snapshot.services && ReachableAt(snapshot, s.id, t)
    ensures Served(snapshot, s, t)
  {
    ReachesSelf(DependencyGraph(snapshot.services), s.id);
    ReachableExactly(snapshot, s.id, t);
    var r :| r in snapshot.services && r.id == s.id && r.state.Active? && Served(snapshot, r, t);
    ServicesByIdExact(snapshot.services, r);
    ServicesByIdExact(snapshot.services, s);
  }

  /** If an entry is reported reachable, then everything its service depends on has an entry at the same instant that is
      reachable too, and names a chain whose anchor and certificates are all valid then. */
  lemma ReportedReachableMeansValid(snapshot: Snapshot, origins: map<nat, Origin>, k: nat, j: nat, v: nat)
    requires DistinctBy(snapshot.services, ServiceId) && CarriesWindows(snapshot, origins)
    requires k < |SimulationOf(snapshot).evidence| && j < |SimulationOf(snapshot).evidence[k].services|
    requires SimulationOf(snapshot).evidence[k].services[j].reachable
    requires Reaches(DependencyGraph(snapshot.services), SimulationOf(snapshot).evidence[k].services[j].serviceId, v)
    ensures var at, entries := SimulationOf(snapshot).evidence[k].at, SimulationOf(snapshot).evidence[k].services;
      exists i :: 0 <= i < |entries| && entries[i].serviceId == v && entries[i].reachable
                  && ValidChain(origins, entries[i].selectedChain, at)
  {
    var i := ClosureHasEntries(snapshot, k, j, v);
    NamedChainIsValid(snapshot, origins, k, i);
  }
}
