/** Dependency graphs as finite maps from a node to its listed successors.
    A node that is not a key has no successors; a successor need not be a key. */
module Graphs {

  type Graph = map<nat, seq<nat>>

  ghost function Succ(g: Graph, v: nat): seq<nat> {
    if v in g then g[v] else []
  }

  ghost predicate Edge(g: Graph, a: nat, b: nat) {
    b in Succ(g, a)
  }

  ghost predicate Walk(g: Graph, p: seq<nat>) {
    |p| > 0 && forall i :: 0 <= i < |p| - 1 ==> Edge(g, p[i], p[i + 1])
  }

  ghost predicate WalkFromTo(g: Graph, p: seq<nat>, a: nat, b: nat) {
    Walk(g, p) && p[0] == a && p[|p| - 1] == b
  }

  ghost predicate Reaches(g: Graph, a: nat, b: nat) {
    exists p :: WalkFromTo(g, p, a, b)
  }

  /** `a` lies on a cycle: there is a non-empty path from `a` to itself. */
  ghost predicate OnCycle(g: Graph, a: nat) {
    exists p :: WalkFromTo(g, p, a, a) && |p| > 1
  }

  ghost predicate Acyclic(g: Graph) {
    forall a :: !OnCycle(g, a)
  }

  ghost predicate Closed(g: Graph) {
    forall a, b :: Edge(g, a, b) ==> b in g
  }

  ghost predicate Subgraph(h: Graph, g: Graph) {
    forall a, b :: Edge(h, a, b) ==> Edge(g, a, b)
  }

  lemma ReachesSelf(g: Graph, a: nat)
    ensures Reaches(g, a, a)
  {
    assert WalkFromTo(g, [a], a, a);
  }

  lemma ReachesTransitive(g: Graph, a: nat, b: nat, c: nat)
    requires Reaches(g, a, b) && Reaches(g, b, c)
    ensures Reaches(g, a, c)
  {
    var p :| WalkFromTo(g, p, a, b);
    var q :| WalkFromTo(g, q, b, c);
    assert WalkFromTo(g, p + q[1..], a, c);
  }

  lemma EdgeReaches(g: Graph, a: nat, b: nat)
    requires Edge(g, a, b)
    ensures Reaches(g, a, b)
  {
    assert WalkFromTo(g, [a, b], a, b);
  }

  lemma ReachesByFirstEdge(g: Graph, a: nat, d: nat, c: nat)
    requires Edge(g, a, d) && Reaches(g, d, c)
    ensures Reaches(g, a, c)
  {
    EdgeReaches(g, a, d);
    ReachesTransitive(g, a, d, c);
  }

  /** A reachable node is the start itself or is reachable from one of its successors. */
  lemma FirstEdgeOf(g: Graph, a: nat, c: nat) returns (d: nat)
    requires Reaches(g, a, c) && a != c
    ensures Edge(g, a, d) && Reaches(g, d, c)
  {
    var p :| WalkFromTo(g, p, a, c);
    d := p[1];
    assert Edge(g, p[0], p[1]);
    assert WalkFromTo(g, p[1..], d, c);
  }

  lemma CycleThroughFirstEdge(g: Graph, a: nat) returns (d: nat)
    requires OnCycle(g, a)
    ensures Edge(g, a, d) && Reaches(g, d, a)
  {
    var p :| WalkFromTo(g, p, a, a) && |p| > 1;
    d := p[1];
    assert Edge(g, p[0], p[1]);
    assert WalkFromTo(g, p[1..], d, a);
  }

  lemma ClosingEdgeMakesCycle(g: Graph, a: nat, d: nat)
    requires Edge(g, a, d) && Reaches(g, d, a)
    ensures OnCycle(g, a)
  {
    var q :| WalkFromTo(g, q, d, a);
    assert WalkFromTo(g, [a] + q, a, a);
  }

  lemma RepeatMakesCycle(g: Graph, p: seq<nat>, i: nat, j: nat)
    requires Walk(g, p) && i < j < |p| && p[i] == p[j]
    ensures OnCycle(g, p[i])
  {
    assert WalkFromTo(g, p[i..j + 1], p[i], p[i]);
  }

  lemma WalkReaches(g: Graph, p: seq<nat>, i: nat)
    requires Walk(g, p) && i < |p|
    ensures Reaches(g, p[0], p[i])
  {
    assert WalkFromTo(g, p[..i + 1], p[0], p[i]);
  }

  lemma SubgraphReaches(h: Graph, g: Graph, a: nat, b: nat)
    requires Subgraph(h, g) && Reaches(h, a, b)
    ensures Reaches(g, a, b)
  {
    var p :| WalkFromTo(h, p, a, b);
    assert WalkFromTo(g, p, a, b);
  }

  lemma SubgraphOnCycle(h: Graph, g: Graph, a: nat)
    requires Subgraph(h, g) && OnCycle(h, a)
    ensures OnCycle(g, a)
  {
    var p :| WalkFromTo(h, p, a, a) && |p| > 1;
    assert WalkFromTo(g, p, a, a);
  }

  /** A set that contains the successors of its members contains everything they reach. */
  lemma {:induction false} StaysInside(g: Graph, inside: set<nat>, p: seq<nat>)
    requires forall a, b :: a in inside && Edge(g, a, b) ==> b in inside
    requires Walk(g, p) && p[0] in inside
    ensures p[|p| - 1] in inside
    decreases |p|
  {
    if |p| > 1 {
      assert Edge(g, p[0], p[1]);
      StaysInside(g, inside, p[1..]);
    }
  }

  lemma ReachStaysInside(g: Graph, inside: set<nat>, a: nat, b: nat)
    requires forall x, y :: x in inside && Edge(g, x, y) ==> y in inside
    requires a in inside && Reaches(g, a, b)
    ensures b in inside
  {
    var p :| WalkFromTo(g, p, a, b);
    StaysInside(g, inside, p);
  }
}
