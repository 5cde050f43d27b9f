/** The sampled instants, the anchors trusted at each of them, and whether one service can reach a
    trusted certificate path on its own, leaving its dependencies aside. */
module Direct {
  import opened Ordered
  import opened Snapshots

  const MINUTE := 60_000_000_000
  const MAX_DURATION := 0x7fff_ffff_ffff_ffff
  const MIN_DURATION := -0x8000_0000_0000_0000

  // ---------- critical instants ----------

  /** Subtraction of instants, saturating at the limits of a 64-bit duration. */
  function Since(later: int, earlier: int): int {
    var d := later - earlier;
    if d > MAX_DURATION then MAX_DURATION else if d < MIN_DURATION then MIN_DURATION else d
  }

  /** Division by two that truncates toward zero. */
  function Half(d: int): int {
    if d >= 0 then d / 2 else -(-d / 2)
  }

  function Midpoint(config: ScenarioConfig): int {
    config.overlapStart + Half(Since(config.overlapEnd, config.overlapStart))
  }

  function SixInstants(config: ScenarioConfig): seq<int> {
    [config.overlapStart - MINUTE, config.overlapStart, Midpoint(config),
     config.overlapEnd, config.overlapEnd + MINUTE, config.simulationTime]
  }

  function Instants(config: ScenarioConfig): seq<int> {
    Ascending(SixInstants(config))
  }

  /** `kept` is the de-duplicated form of the ascending list `seen`. */
  ghost predicate Deduplicated(kept: seq<int>, seen: seq<int>) {
    && StrictlyAscending(kept) && SameElements(kept, seen)
    && (seen != [] ==> kept != [] && kept[|kept| - 1] == seen[|seen| - 1])
  }

  lemma DeduplicateNext(kept: seq<int>, seen: seq<int>, point: int)
    requires Deduplicated(kept, seen) && (seen != [] ==> seen[|seen| - 1] <= point)
    ensures Deduplicated(if kept == [] || point != kept[|kept| - 1] then kept + [point] else kept, seen + [point])
  {
    assert kept == [] ==> seen == [] by {
      assert forall i :: 0 <= i < |seen| ==> seen[i] in kept;
    }
    forall x ensures x in seen + [point] <==> x in kept || x == point {
      assert x in seen + [point] <==> x in seen || x == point;
    }
    if kept != [] {
      assert kept[0] in seen;
      forall i | 0 <= i < |kept| ensures kept[i] <= point {
        assert kept[i] <= kept[|kept| - 1];
      }
    }
  }

  /** Sorts the six instants and removes repeats in the same array: slot `n` is written only after slot
      `k >= n` was read, so no unread slot is overwritten. */
  method CriticalTimes(config: ScenarioConfig) returns (result: seq<int>)
    ensures result == Instants(config)
  {
    var six := SixInstants(config);
    result := SortAndDeduplicate(six);
    AscendingCharacterised(result, six);
  }

  method SortAndDeduplicate(times: seq<int>) returns (result: seq<int>)
    ensures StrictlyAscending(result) && SameElements(result, times)
  {
    var points := new int[|times|](i requires 0 <= i < |times| => times[i]);
    assert points[..] == times;
    SortSlice(points, (t: int) => t);
    ghost var sorted := points[..];
    SameMultisetSameElements(sorted, times);
    var n := 0;
    for k := 0 to points.Length
      invariant 0 <= n <= k && Halfway(points[..], n, sorted, k)
    {
      var point := points[k];
      NextPoint(points[..], n, sorted, k);
      if n == 0 || point != points[n - 1] {
        ghost var before := points[..];
        points[n] := point;
        assert points[..] == before[n := point];
        n := n + 1;
      }
    }
    assert sorted[..points.Length] == sorted;
    result := points[..n];
  }

  /** Of the sorted points, the first `k` have been read and de-duplicated into the first `n` slots. */
  ghost predicate Halfway(points: seq<int>, n: nat, sorted: seq<int>, k: nat) {
    && n <= k <= |points| == |sorted|
    && points[k..] == sorted[k..] && Deduplicated(points[..n], sorted[..k])
  }

  /** What reading slot `k` and, if it is new, writing it to the next kept slot does. */
  lemma NextPoint(points: seq<int>, n: nat, sorted: seq<int>, k: nat)
    requires k < |points| && Halfway(points, n, sorted, k) && SortedBy(sorted, (t: int) => t)
    ensures if n > 0 && points[k] == points[n - 1] then Halfway(points, n, sorted, k + 1)
            else Halfway(points[n := points[k]], n + 1, sorted, k + 1)
  {
    var longer := points[n := points[k]];
    assert points[k] == points[k..][0] && sorted[k] == sorted[k..][0];
    assert points[k + 1..] == points[k..][1..] && sorted[k + 1..] == sorted[k..][1..];
    assert longer[k + 1..] == points[k + 1..];
    assert sorted[..k + 1] == sorted[..k] + [sorted[k]];
    assert longer[..n + 1] == points[..n] + [points[k]];
    DeduplicateNext(points[..n], sorted[..k], sorted[k]);
  }

  lemma MidpointInside(config: ScenarioConfig)
    requires config.overlapStart < config.overlapEnd
    ensures config.overlapStart <= Midpoint(config) < config.overlapEnd
  {
  }

  /** The midpoint is that of the overlap, unless the length of the overlap saturates. */
  lemma MidpointExactly(config: ScenarioConfig)
    requires config.overlapStart < config.overlapEnd
    ensures var start, end := config.overlapStart, config.overlapEnd;
      Midpoint(config) == if end - start <= MAX_DURATION then (start + end) / 2 else start + MAX_DURATION / 2
  {
  }

  lemma FourElements(r: seq<int>, w: int, x: int, y: int, z: int)
    requires StrictlyAscending(r) && w < x < y < z
    requires w in r && x in r && y in r && z in r
    ensures |r| >= 4
  {
    var a :| 0 <= a < |r| && r[a] == w;
    var b :| 0 <= b < |r| && r[b] == x;
    var c :| 0 <= c < |r| && r[c] == y;
    var d :| 0 <= d < |r| && r[d] == z;
    assert a < b < c < d;
  }

  /** What is sampled, exactly. */
  lemma InstantsExactly(config: ScenarioConfig, t: int)
    requires config.overlapStart < config.overlapEnd
    ensures var start, end, minute := config.overlapStart, config.overlapEnd, 60_000_000_000;
      var middle := if end - start <= MAX_DURATION then (start + end) / 2 else start + MAX_DURATION / 2;
      t in Instants(config) <==>
        || t == start - minute || t == start || t == middle || t == end || t == end + minute
        || t == config.simulationTime
  {
    MidpointExactly(config);
    var six := SixInstants(config);
    assert t in Instants(config) <==> t in six;
    assert forall i :: 0 <= i < 6 ==> six[i] in six;
  }

  /** With a non-empty overlap there are four to six instants, and the midpoint falls inside the overlap
      even when the length of the overlap saturates. */
  lemma InstantsOfOverlap(config: ScenarioConfig)
    requires config.overlapStart < config.overlapEnd
    ensures config.overlapStart <= Midpoint(config) < config.overlapEnd
    ensures 4 <= |Instants(config)| <= 6 && StrictlyAscending(Instants(config))
    ensures forall t :: t in Instants(config) <==> t in SixInstants(config)
  {
    MidpointInside(config);
    var six := SixInstants(config);
    assert six[0] in six && six[1] in six && six[3] in six && six[4] in six;
    FourElements(Instants(config), six[0], six[1], six[3], six[4]);
  }

  // ---------- anchors ----------

  function ActiveAnchors(config: ScenarioConfig, at: int): seq<nat> {
    if at < config.overlapStart then [config.oldAnchorId]
    else if at > config.overlapEnd then [config.newAnchorId]
    else [config.oldAnchorId, config.newAnchorId]
  }

  /** The anchor is in force at instant `at`: the old one until the overlap ends, the new one since it began. */
  ghost predicate InForce(config: ScenarioConfig, at: int, anchorId: nat) {
    if at < config.overlapStart then anchorId == config.oldAnchorId
    else if at > config.overlapEnd then anchorId == config.newAnchorId
    else anchorId == config.oldAnchorId || anchorId == config.newAnchorId
  }

  lemma ActiveAnchorsInForce(config: ScenarioConfig, at: int, anchorId: nat)
    ensures anchorId in ActiveAnchors(config, at) <==> InForce(config, at, anchorId)
  {
  }

  method ComputeActiveAnchors(config: ScenarioConfig, at: int) returns (active: map<nat, bool>)
    ensures forall a :: a in active <==> a in ActiveAnchors(config, at)
  {
    active := map[];
    if at < config.overlapStart {
      active := active[config.oldAnchorId := true];
    } else if at > config.overlapEnd {
      active := active[config.newAnchorId := true];
    } else {
      active := active[config.oldAnchorId := true];
      active := active[config.newAnchorId := true];
    }
  }

  // ---------- evidence ----------

  datatype ChainReason =
    | ChainNotActive(code: string)
    | OutsideWindow(code: string)
    | NotValidated(code: string)
    | AnchorUnavailable(code: string)
    | AnchorNotTrusted(code: string, anchorId: nat)

  datatype Reason =
    | PathReachable
    | ChainMissing
    | NoMatchingCandidate
    | AllRefused(reasons: seq<ChainReason>)
    | AbsentOrInactive
    | CycleEncountered
    | Upstream(code: string, reason: Reason)

  /** `selectedChain` and `selectedAnchor` are 0 when no chain was selected. */
  datatype ServiceEvidence = ServiceEvidence(
    serviceId: nat, code: string, reachable: bool, selectedChain: nat, selectedAnchor: nat, reason: Reason)

  type Chains = map<nat, ChainSnapshot>

  /** The chain gives `service` a trusted path at instant `at`. */
  ghost predicate Usable(service: ServiceSnapshot, config: ScenarioConfig, at: int, chain: ChainSnapshot) {
    && chain.state != Revoked && chain.state != Deprecated
    && chain.validFrom <= at < chain.validTo
    && chain.validationValid
    && chain.anchorId in ActiveAnchors(config, at)
    && chain.anchorId in service.trustAnchorIds
  }

  /** The chain stands for the same leaf identity as the service's configured chain. */
  ghost predicate Matches(service: ServiceSnapshot, chains: Chains, id: nat) {
    service.chainId in chains && id in chains && chains[id].leafSubject == chains[service.chainId].leafSubject
  }

  ghost predicate Acceptable(service: ServiceSnapshot, config: ScenarioConfig, at: int, chains: Chains, id: nat) {
    Matches(service, chains, id) && Usable(service, config, at, chains[id])
  }

  function Considered(service: ServiceSnapshot, config: ScenarioConfig): seq<nat> {
    CanonicalIds([service.chainId] + config.candidateChainIds)
  }

  /** The first reason, in the order the checks are made, why a matching chain is not usable. */
  function Refusal(service: ServiceSnapshot, config: ScenarioConfig, at: int,
                   chain: ChainSnapshot): (r: seq<ChainReason>)
    ensures |r| <= 1
    ensures r == [] <==> Usable(service, config, at, chain)
  {
    if chain.state == Revoked || chain.state == Deprecated then [ChainNotActive(chain.code)]
    else if at < chain.validFrom || at >= chain.validTo then [OutsideWindow(chain.code)]
    else if !chain.validationValid then [NotValidated(chain.code)]
    else if chain.anchorId !in ActiveAnchors(config, at) then [AnchorUnavailable(chain.code)]
    else if chain.anchorId !in service.trustAnchorIds then [AnchorNotTrusted(service.code, chain.anchorId)]
    else []
  }

  ghost function Scan(service: ServiceSnapshot, config: ScenarioConfig, at: int, chains: Chains,
                      ids: seq<nat>, reasons: seq<ChainReason>): ServiceEvidence
    requires service.chainId in chains
  {
    if ids == [] then
      ServiceEvidence(service.id, service.code, false, 0, 0,
                      if reasons == [] then NoMatchingCandidate else AllRefused(reasons))
    else if !Matches(service, chains, ids[0]) then
      Scan(service, config, at, chains, ids[1..], reasons)
    else if Usable(service, config, at, chains[ids[0]]) then
      ServiceEvidence(service.id, service.code, true, ids[0], chains[ids[0]].anchorId, PathReachable)
    else
      Scan(service, config, at, chains, ids[1..], reasons + Refusal(service, config, at, chains[ids[0]]))
  }

  ghost function DirectEvidence(service: ServiceSnapshot, config: ScenarioConfig, at: int,
                                chains: Chains): ServiceEvidence {
    if service.chainId !in chains then
      ServiceEvidence(service.id, service.code, false, 0, 0, ChainMissing)
    else
      Scan(service, config, at, chains, Considered(service, config), [])
  }

  method EvaluateDirect(service: ServiceSnapshot, config: ScenarioConfig, at: int, active: map<nat, bool>,
                        chains: Chains)
    returns (item: ServiceEvidence)
    requires forall a :: a in active <==> a in ActiveAnchors(config, at)
    ensures item == DirectEvidence(service, config, at, chains)
  {
    if service.chainId !in chains {
      return ServiceEvidence(service.id, service.code, false, 0, 0, ChainMissing);
    }
    var current := chains[service.chainId];
    var ids := SortedUnique([service.chainId] + config.candidateChainIds);
    var reasons: seq<ChainReason> := [];
    for i := 0 to |ids|
      invariant Scan(service, config, at, chains, ids[i..], reasons) == DirectEvidence(service, config, at, chains)
    {
      var id := ids[i];
      assert ids[i..][1..] == ids[i + 1..];
      if id !in chains || chains[id].leafSubject != current.leafSubject {
        continue;
      }
      var chain := chains[id];
      if chain.state == Revoked || chain.state == Deprecated {
        reasons := reasons + [ChainNotActive(chain.code)];
        continue;
      }
      if at < chain.validFrom || at >= chain.validTo {
        reasons := reasons + [OutsideWindow(chain.code)];
        continue;
      }
      if !chain.validationValid {
        reasons := reasons + [NotValidated(chain.code)];
        continue;
      }
      if chain.anchorId !in active {
        reasons := reasons + [AnchorUnavailable(chain.code)];
        continue;
      }
      if chain.anchorId !in service.trustAnchorIds {
        reasons := reasons + [AnchorNotTrusted(service.code, chain.anchorId)];
        continue;
      }
      return ServiceEvidence(service.id, service.code, true, id, chain.anchorId, PathReachable);
    }
    return ServiceEvidence(service.id, service.code, false, 0, 0,
                           if reasons == [] then NoMatchingCandidate else AllRefused(reasons));
  }

  /** The refusals recorded for the matching chains of a list, in list order. */
  ghost function Refusals(service: ServiceSnapshot, config: ScenarioConfig, at: int, chains: Chains,
                          ids: seq<nat>): seq<ChainReason> {
    if ids == [] then []
    else
      (if Matches(service, chains, ids[0]) then Refusal(service, config, at, chains[ids[0]]) else [])
      + Refusals(service, config, at, chains, ids[1..])
  }

  /** `e` selects the least acceptable chain of `ids`, if there is any. */
  ghost predicate SelectsLeast(e: ServiceEvidence, service: ServiceSnapshot, config: ScenarioConfig, at: int,
                               chains: Chains, ids: seq<nat>) {
    && (forall id :: id in ids && Acceptable(service, config, at, chains, id) ==> e.reachable && e.selectedChain <= id)
    && (e.reachable ==>
          && e.selectedChain in ids && Acceptable(service, config, at, chains, e.selectedChain)
          && e.selectedAnchor == chains[e.selectedChain].anchorId)
  }

  lemma {:induction false} ScanSelectsLeast(service: ServiceSnapshot, config: ScenarioConfig, at: int, chains: Chains,
                                            ids: seq<nat>, reasons: seq<ChainReason>)
    requires service.chainId in chains && StrictlyAscending(ids)
    ensures var e := Scan(service, config, at, chains, ids, reasons);
      && e.serviceId == service.id && e.code == service.code && SelectsLeast(e, service, config, at, chains, ids)
      && (if e.reachable then e.reason == PathReachable else e.selectedChain == 0 && e.selectedAnchor == 0)
  {
    if ids != [] {
      var first, rest := ids[0], ids[1..];
      assert forall id :: id in ids <==> id == first || id in rest;
      assert forall i :: 0 <= i < |rest| ==> first < rest[i];
      if !Acceptable(service, config, at, chains, first) {
        var more := if Matches(service, chains, first) then Refusal(service, config, at, chains[first]) else [];
        assert reasons + [] == reasons;
        ScanSelectsLeast(service, config, at, chains, rest, reasons + more);
      }
    }
  }

  lemma {:induction false} ScanListsRefusals(service: ServiceSnapshot, config: ScenarioConfig, at: int, chains: Chains,
                                             ids: seq<nat>, reasons: seq<ChainReason>)
    requires service.chainId in chains && !Scan(service, config, at, chains, ids, reasons).reachable
    ensures var all := reasons + Refusals(service, config, at, chains, ids);
      Scan(service, config, at, chains, ids, reasons).reason
      == if all == [] then NoMatchingCandidate else AllRefused(all)
  {
    if ids == [] {
      assert reasons + [] == reasons;
    } else {
      var first, rest := ids[0], ids[1..];
      var more := if Matches(service, chains, first) then Refusal(service, config, at, chains[first]) else [];
      assert reasons + [] == reasons;
      ScanListsRefusals(service, config, at, chains, rest, reasons + more);
      assert (reasons + more) + Refusals(service, config, at, chains, rest)
          == reasons + Refusals(service, config, at, chains, ids);
    }
  }

  /** A service is directly reachable exactly when its configured chain exists and some considered chain for the
      same leaf is usable; the least such chain is selected. */
  lemma DirectExact(service: ServiceSnapshot, config: ScenarioConfig, at: int, chains: Chains)
    ensures var e := DirectEvidence(service, config, at, chains);
      && e.serviceId == service.id && e.code == service.code
      && (e.reachable <==>
            exists id :: id in Considered(service, config) && Acceptable(service, config, at, chains, id))
      && SelectsLeast(e, service, config, at, chains, Considered(service, config))
      && (if e.reachable then e.reason == PathReachable else e.selectedChain == 0 && e.selectedAnchor == 0)
  {
    if service.chainId in chains {
      ScanSelectsLeast(service, config, at, chains, Considered(service, config), []);
    }
  }

  /** A direct failure reports every refusal of a matching chain, in ascending chain order, and nothing else. */
  lemma DirectFailureExplained(service: ServiceSnapshot, config: ScenarioConfig, at: int, chains: Chains)
    requires !DirectEvidence(service, config, at, chains).reachable
    ensures var all := Refusals(service, config, at, chains, Considered(service, config));
      DirectEvidence(service, config, at, chains).reason ==
        if service.chainId !in chains then ChainMissing
        else if all == [] then NoMatchingCandidate
        else AllRefused(all)
  {
    if service.chainId in chains {
      ScanListsRefusals(service, config, at, chains, Considered(service, config), []);
      var all := Refusals(service, config, at, chains, Considered(service, config));
      assert [] + all == all;
    }
  }
}
