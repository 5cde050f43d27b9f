/** How a failure spreads from a service to everything that depends on it, and the broken path that is
    reported for it. */
module Propagation {
  import opened Wrappers
  import opened Ordered
  import opened Graphs
  import opened Snapshots
  import opened Direct

  type Evidences = map<nat, ServiceEvidence>

  datatype Resolution = Resolution(item: ServiceEvidence, path: seq<nat>)

  // ---------- the search as a function of the services being visited ----------

  ghost function Resolve(direct: Evidences, g: Graph, id: nat, visiting: set<nat>): Resolution
    decreases direct.Keys - visiting, 0, 0
  {
    if id !in direct then
      Resolution(ServiceEvidence(id, "", false, 0, 0, AbsentOrInactive), [id])
    else if id in visiting then
      Resolution(direct[id].(reachable := false, reason := CycleEncountered), [id])
    else if !direct[id].reachable then
      Resolution(direct[id], [id])
    else
      Concluded(direct[id], id, FirstBroken(direct, g, Succ(g, id), visiting + {id}))
  }

  /** The outcome for a healthy service, given that of its first dependency that cannot be resolved, if any. */
  function Concluded(item: ServiceEvidence, id: nat, broken: Option<Resolution>): Resolution {
    match broken
    case None => Resolution(item, [id])
    case Some(below) =>
      Resolution(item.(reachable := false, reason := Upstream(below.item.code, below.item.reason)), [id] + below.path)
  }

  /** The outcome of the first dependency in the list that cannot be resolved. */
  ghost function FirstBroken(direct: Evidences, g: Graph, deps: seq<nat>, visiting: set<nat>): Option<Resolution>
    decreases direct.Keys - visiting, 1, |deps|
  {
    if deps == [] then None
    else
      var first := Resolve(direct, g, deps[0], visiting);
      if !first.item.reachable then Some(first) else FirstBroken(direct, g, deps[1..], visiting)
  }

  lemma FirstBrokenNext(direct: Evidences, g: Graph, deps: seq<nat>, i: nat, visiting: set<nat>)
    requires i < |deps|
    ensures var first := Resolve(direct, g, deps[i], visiting);
      FirstBroken(direct, g, deps[i..], visiting) ==
        if first.item.reachable then FirstBroken(direct, g, deps[i + 1..], visiting) else Some(first)
  {
    assert deps[i..][1..] == deps[i + 1..];
  }

  lemma MarkAndUnmark(visiting: map<nat, bool>, id: nat)
    requires id !in visiting
    ensures visiting[id := true].Keys == visiting.Keys + {id} && visiting[id := true] - {id} == visiting
  {
  }

  /** The recursive search with its shared, mutable set of services being visited. */
  class Resolver {
    const direct: Evidences
    const services: map<nat, ServiceSnapshot>
    var visiting: map<nat, bool>

    constructor (direct: Evidences, services: map<nat, ServiceSnapshot>)
      ensures this.direct == direct && this.services == services && visiting == map[]
    {
      this.direct, this.services, this.visiting := direct, services, map[];
    }

    method ResolveService(id: nat, path: seq<nat>) returns (item: ServiceEvidence, brokenPath: seq<nat>)
      modifies this`visiting
      ensures visiting == old(visiting)
      ensures var r := Resolve(direct, GraphOf(services), id, old(visiting).Keys);
        item == r.item && brokenPath == path + r.path
      decreases direct.Keys - visiting.Keys
    {
      if id !in direct {
        return ServiceEvidence(id, "", false, 0, 0, AbsentOrInactive), path + [id];
      }
      item := direct[id];
      var currentPath := path + [id];
      if id in visiting {
        return item.(reachable := false, reason := CycleEncountered), currentPath;
      }
      if !item.reachable {
        return item, currentPath;
      }
      ghost var g, before := GraphOf(services), visiting;
      ghost var marked := before.Keys + {id};
      MarkAndUnmark(visiting, id);
      visiting := visiting[id := true];
      var dependencyIds := if id in services then services[id].dependencyIds else [];
      assert dependencyIds == Succ(g, id);
      for i := 0 to |dependencyIds|
        invariant visiting == before[id := true]
        invariant Resolve(direct, g, id, before.Keys)
               == Concluded(item, id, FirstBroken(direct, g, dependencyIds[i..], marked))
      {
        FirstBrokenNext(direct, g, dependencyIds, i, marked);
        var dep, depPath := ResolveService(dependencyIds[i], currentPath);
        if !dep.reachable {
          visiting := visiting - {id};
          item := item.(reachable := false, reason := Upstream(dep.code, dep.reason));
          return item, depPath;
        }
      }
      visiting := visiting - {id};
      return item, currentPath;
    }
  }

  // ---------- what the search decides ----------

  /** The service is active and has a trusted path of its own. */
  ghost predicate Healthy(direct: Evidences, v: nat) {
    v in direct && direct[v].reachable
  }

  /** Everything `id` depends on, directly or not, is healthy, on no cycle and not being visited. */
  ghost predicate Clear(direct: Evidences, g: Graph, id: nat, visiting: set<nat>) {
    forall v :: Reaches(g, id, v) ==> Healthy(direct, v) && v !in visiting && !OnCycle(g, v)
  }

  lemma ClearStep(direct: Evidences, g: Graph, id: nat, visiting: set<nat>)
    requires Healthy(direct, id) && id !in visiting
    ensures Clear(direct, g, id, visiting) <==> forall d :: d in Succ(g, id) ==> Clear(direct, g, d, visiting + {id})
  {
    if Clear(direct, g, id, visiting) {
      ReachesSelf(g, id);
      forall d, v | d in Succ(g, id) && Reaches(g, d, v)
        ensures Healthy(direct, v) && v !in visiting + {id} && !OnCycle(g, v)
      {
        ReachesByFirstEdge(g, id, d, v);
        if v == id {
          ClosingEdgeMakesCycle(g, id, d);
        }
      }
    }
    if forall d :: d in Succ(g, id) ==> Clear(direct, g, d, visiting + {id}) {
      forall v | Reaches(g, id, v) ensures Healthy(direct, v) && v !in visiting && !OnCycle(g, v) {
        if v == id {
          if OnCycle(g, id) {
            var d := CycleThroughFirstEdge(g, id);
            assert false;
          }
        } else {
          var d := FirstEdgeOf(g, id, v);
          assert Clear(direct, g, d, visiting + {id});
        }
      }
    }
  }

  /** The search is exact on every finite graph, cyclic or not, whatever is being visited: a service is
      reachable if and only if everything in its dependency closure is clear. */
  lemma {:induction false} ResolveExact(direct: Evidences, g: Graph, id: nat, visiting: set<nat>)
    ensures Resolve(direct, g, id, visiting).item.reachable <==> Clear(direct, g, id, visiting)
    decreases direct.Keys - visiting, 0, 0
  {
    if Healthy(direct, id) && id !in visiting {
      FirstBrokenExact(direct, g, Succ(g, id), visiting + {id});
      ClearStep(direct, g, id, visiting);
    } else {
      ReachesSelf(g, id);
    }
  }

  lemma {:induction false} FirstBrokenExact(direct: Evidences, g: Graph, deps: seq<nat>, visiting: set<nat>)
    ensures FirstBroken(direct, g, deps, visiting).None? <==> forall d :: d in deps ==> Clear(direct, g, d, visiting)
    decreases direct.Keys - visiting, 1, |deps|
  {
    if deps != [] {
      ResolveExact(direct, g, deps[0], visiting);
      FirstBrokenExact(direct, g, deps[1..], visiting);
      assert forall d :: d in deps <==> d == deps[0] || d in deps[1..];
    }
  }

  // ---------- the broken path ----------

  /** Everything in the dependency closure of `v` is healthy. */
  ghost predicate Sound(direct: Evidences, g: Graph, v: nat) {
    forall u :: Reaches(g, v, u) ==> Healthy(direct, u)
  }

  /** `b` is the first dependency listed by `a` whose closure is not healthy. */
  ghost predicate NextBroken(direct: Evidences, g: Graph, a: nat, b: nat) {
    exists k :: 0 <= k < |Succ(g, a)| && Succ(g, a)[k] == b && !Sound(direct, g, b)
                && forall j :: 0 <= j < k ==> Sound(direct, g, Succ(g, a)[j])
  }

  /** `p` follows first broken dependencies through healthy services down to one that is not healthy. */
  ghost predicate IsWitness(direct: Evidences, g: Graph, p: seq<nat>) {
    && |p| > 0 && !Healthy(direct, p[|p| - 1])
    && forall i :: 0 <= i < |p| - 1 ==> Healthy(direct, p[i]) && NextBroken(direct, g, p[i], p[i + 1])
  }

  function CodeOf(direct: Evidences, v: nat): string {
    if v in direct then direct[v].code else ""
  }

  /** The reason reported along a path: that of its last service, nested once per edge. */
  function FoldedReason(direct: Evidences, p: seq<nat>): Reason
    requires |p| > 0
  {
    if |p| == 1 then
      if p[0] in direct then direct[p[0]].reason else AbsentOrInactive
    else
      Upstream(CodeOf(direct, p[1]), FoldedReason(direct, p[1..]))
  }

  /** No path from `id` meets a cycle or a service being visited. */
  ghost predicate CycleFree(g: Graph, id: nat, visiting: set<nat>) {
    forall v :: Reaches(g, id, v) ==> !OnCycle(g, v) && v !in visiting
  }

  lemma CycleFreeBelow(g: Graph, id: nat, d: nat, visiting: set<nat>)
    requires CycleFree(g, id, visiting) && Edge(g, id, d)
    ensures CycleFree(g, d, visiting + {id})
  {
    ReachesSelf(g, id);
    forall v | Reaches(g, d, v) ensures !OnCycle(g, v) && v !in visiting + {id} {
      ReachesByFirstEdge(g, id, d, v);
      if v == id {
        ClosingEdgeMakesCycle(g, id, d);
      }
    }
  }

  lemma SoundIsClear(direct: Evidences, g: Graph, id: nat, visiting: set<nat>)
    requires CycleFree(g, id, visiting)
    ensures Clear(direct, g, id, visiting) <==> Sound(direct, g, id)
  {
  }

  /** Where nothing in the closure is cyclic, every failure comes with its witness and its folded reason. */
  lemma {:induction false} ResolveGivesWitness(direct: Evidences, g: Graph, id: nat, visiting: set<nat>)
    requires CycleFree(g, id, visiting) && !Resolve(direct, g, id, visiting).item.reachable
    ensures var r := Resolve(direct, g, id, visiting);
      && IsWitness(direct, g, r.path) && r.path[0] == id
      && r.item.reason == FoldedReason(direct, r.path)
      && r.item.code == CodeOf(direct, id) && r.item.serviceId == (if id in direct then direct[id].serviceId else id)
    decreases direct.Keys - visiting, 0, 0
  {
    ReachesSelf(g, id);
    if Healthy(direct, id) {
      var deps := Succ(g, id);
      forall d | d in deps ensures CycleFree(g, d, visiting + {id}) {
        CycleFreeBelow(g, id, d, visiting);
      }
      var k := FirstBrokenIndex(direct, g, deps, visiting + {id});
      var below := Resolve(direct, g, deps[k], visiting + {id});
      var p := [id] + below.path;
      assert NextBroken(direct, g, id, deps[k]);
      assert p[1..] == below.path;
    }
  }

  lemma {:induction false} FirstBrokenIndex(direct: Evidences, g: Graph, deps: seq<nat>, visiting: set<nat>)
    returns (k: nat)
    requires forall d :: d in deps ==> CycleFree(g, d, visiting)
    requires FirstBroken(direct, g, deps, visiting).Some?
    ensures k < |deps| && FirstBroken(direct, g, deps, visiting).value == Resolve(direct, g, deps[k], visiting)
    ensures !Sound(direct, g, deps[k]) && forall j :: 0 <= j < k ==> Sound(direct, g, deps[j])
    ensures var r := Resolve(direct, g, deps[k], visiting);
      && IsWitness(direct, g, r.path) && r.path[0] == deps[k]
      && r.item.reason == FoldedReason(direct, r.path) && r.item.code == CodeOf(direct, deps[k])
    decreases direct.Keys - visiting, 1, |deps|
  {
    ResolveExact(direct, g, deps[0], visiting);
    SoundIsClear(direct, g, deps[0], visiting);
    if Resolve(direct, g, deps[0], visiting).item.reachable {
      var j := FirstBrokenIndex(direct, g, deps[1..], visiting);
      k := j + 1;
      assert deps[k] == deps[1..][j];
      assert forall i :: 0 < i < k ==> deps[i] == deps[1..][i - 1];
    } else {
      k := 0;
      ResolveGivesWitness(direct, g, deps[0], visiting);
    }
  }

  /** A service has at most one witness. */
  lemma {:induction false} WitnessUnique(direct: Evidences, g: Graph, p: seq<nat>, q: seq<nat>)
    requires IsWitness(direct, g, p) && IsWitness(direct, g, q) && p[0] == q[0]
    ensures p == q
    decreases |p|
  {
    if |p| > 1 && |q| > 1 {
      assert NextBroken(direct, g, p[0], p[1]) && NextBroken(direct, g, q[0], q[1]);
      assert forall i :: 0 <= i < |p[1..]| ==> p[1..][i] == p[i + 1];
      assert forall i :: 0 <= i < |q[1..]| ==> q[1..][i] == q[i + 1];
      WitnessUnique(direct, g, p[1..], q[1..]);
      assert p == [p[0]] + p[1..] && q == [q[0]] + q[1..];
    }
  }

  /** A witness is a real dependency path; in a cycle-free closure it visits no service twice. */
  lemma WitnessIsSimplePath(direct: Evidences, g: Graph, p: seq<nat>)
    requires IsWitness(direct, g, p) && CycleFree(g, p[0], {})
    ensures Walk(g, p)
    ensures forall i, j :: 0 <= i < j < |p| ==> p[i] != p[j]
  {
    assert forall i :: 0 <= i < |p| - 1 ==> NextBroken(direct, g, p[i], p[i + 1]);
    forall i, j | 0 <= i < j < |p| ensures p[i] != p[j] {
      if p[i] == p[j] {
        RepeatMakesCycle(g, p, i, j);
        WalkReaches(g, p, i);
      }
    }
  }

  /** With dependency lists in ascending order, each step goes to the least broken dependency. */
  lemma WitnessTakesLeast(direct: Evidences, g: Graph, p: seq<nat>, i: nat, d: nat)
    requires IsWitness(direct, g, p) && i < |p| - 1 && StrictlyAscending(Succ(g, p[i]))
    requires Edge(g, p[i], d) && !Sound(direct, g, d)
    ensures p[i + 1] <= d
  {
    assert NextBroken(direct, g, p[i], p[i + 1]);
  }

  /** If a dependency is affected, so is everything that transitively depends on it. */
  lemma FailurePropagates(direct: Evidences, g: Graph, upstream: nat, id: nat)
    requires Reaches(g, id, upstream) && !Resolve(direct, g, upstream, {}).item.reachable
    ensures !Resolve(direct, g, id, {}).item.reachable
  {
    ResolveExact(direct, g, upstream, {});
    ResolveExact(direct, g, id, {});
    var v :| Reaches(g, upstream, v) && !(Healthy(direct, v) && !OnCycle(g, v));
    ReachesTransitive(g, id, upstream, v);
  }
}
