/** How replacing the successors of one node affects the cycles of a graph. */
module GraphEdits {
  import opened Graphs

  ghost predicate Known(g: Graph, deps: seq<nat>) {
    forall d :: d in deps ==> d in g
  }

  /** A walk that avoids `x`, or merely starts there and never returns, uses only edges of the other nodes. */
  lemma CycleAvoiding(g: Graph, h: Graph, x: nat, p: seq<nat>, v: nat)
    requires forall a :: a != x ==> Succ(g, a) == Succ(h, a)
    requires WalkFromTo(g, p, v, v) && |p| > 1 && forall i :: 0 <= i < |p| ==> p[i] != x
    ensures OnCycle(h, v)
  {
    forall i | 0 <= i < |p| - 1 ensures Edge(h, p[i], p[i + 1]) {
      assert Edge(g, p[i], p[i + 1]);
    }
    assert WalkFromTo(h, p, v, v);
  }

  /** A cycle that passes through `x` can be read from `x`. */
  lemma RotateCycle(g: Graph, p: seq<nat>, i: nat)
    requires Walk(g, p) && |p| > 1 && p[0] == p[|p| - 1] && i < |p|
    ensures OnCycle(g, p[i])
  {
    if i == 0 {
      assert WalkFromTo(g, p, p[0], p[0]);
    } else {
      var q := p[i..] + p[1..i + 1];
      forall k | 0 <= k < |q| - 1 ensures Edge(g, q[k], q[k + 1]) {
        if k < |p| - i - 1 {
          assert q[k] == p[i + k] && q[k + 1] == p[i + k + 1];
        } else if k == |p| - i - 1 {
          assert q[k] == p[|p| - 1] == p[0] && q[k + 1] == p[1];
        } else {
          var m := k - (|p| - i);
          assert q[k] == p[1 + m] && q[k + 1] == p[2 + m];
        }
      }
      assert WalkFromTo(g, q, p[i], p[i]);
    }
  }

  /** Reaching `x` does not depend on the successors of `x`. */
  lemma {:induction false} ReachIgnoresTarget(g: Graph, h: Graph, x: nat, p: seq<nat>)
    requires forall a :: a != x ==> Succ(g, a) == Succ(h, a)
    requires Walk(g, p) && p[|p| - 1] == x
    ensures Reaches(h, p[0], x)
    decreases |p|
  {
    if p[0] == x {
      ReachesSelf(h, x);
    } else {
      assert Edge(g, p[0], p[1]);
      ReachIgnoresTarget(g, h, x, p[1..]);
      ReachesByFirstEdge(h, p[0], p[1], x);
    }
  }

  /** A new node that only points at existing nodes of a closed graph is on no cycle and creates none. */
  lemma NewSourceAddsNoCycle(g: Graph, x: nat, deps: seq<nat>)
    requires Closed(g) && x !in g && Known(g, deps)
    ensures Closed(g[x := deps])
    ensures Acyclic(g[x := deps]) <==> Acyclic(g)
  {
    var h := g[x := deps];
    assert forall a :: a != x ==> Succ(g, a) == Succ(h, a);
    forall a, b | Edge(h, a, b) ensures b in h && b != x {
      if a != x {
        assert Edge(g, a, b);
      }
    }
    forall v | OnCycle(h, v) ensures OnCycle(g, v) {
      var p :| WalkFromTo(h, p, v, v) && |p| > 1;
      forall i | 0 <= i < |p| ensures p[i] != x {
        var k := if i == 0 then |p| - 2 else i - 1;
        assert Edge(h, p[k], p[k + 1]);
      }
      CycleAvoiding(h, g, x, p, v);
    }
    forall v | OnCycle(g, v) ensures OnCycle(h, v) {
      var p :| WalkFromTo(g, p, v, v) && |p| > 1;
      forall i | 0 <= i < |p| ensures p[i] != x {
        var k := if i == 0 then |p| - 2 else i - 1;
        assert Edge(g, p[k], p[k + 1]);
      }
      CycleAvoiding(g, h, x, p, v);
    }
  }

  /** In a closed graph, the answer of the check does not depend on the identifier the new node is given. */
  lemma RenamingNewNode(g: Graph, x: nat, y: nat, deps: seq<nat>)
    requires Closed(g) && x !in g && y !in g && Known(g, deps)
    ensures Acyclic(g[x := deps]) <==> Acyclic(g[y := deps])
    ensures Closed(g[x := deps]) && Closed(g[y := deps])
  {
    NewSourceAddsNoCycle(g, x, deps);
    NewSourceAddsNoCycle(g, y, deps);
  }

  lemma {:induction false} WalkDescends(g: Graph, rank: nat -> int, p: seq<nat>)
    requires forall a, b :: Edge(g, a, b) ==> rank(a) > rank(b)
    requires Walk(g, p)
    ensures rank(p[0]) >= rank(p[|p| - 1]) + |p| - 1
    decreases |p|
  {
    if |p| > 1 {
      assert Edge(g, p[0], p[1]);
      WalkDescends(g, rank, p[1..]);
    }
  }

  /** A graph whose edges all descend in some ranking has no cycle. */
  lemma RankedIsAcyclic(g: Graph, rank: nat -> int)
    requires forall a, b :: Edge(g, a, b) ==> rank(a) > rank(b)
    ensures Acyclic(g)
  {
    forall v, p | WalkFromTo(g, p, v, v) ensures |p| <= 1 {
      WalkDescends(g, rank, p);
    }
  }

  /** Without closedness the identifier matters: an edge may already be waiting for the one assigned. */
  lemma RenamingNeedsClosedness(placeholder: nat, newId: nat)
    requires placeholder != newId && placeholder != 0 && newId != 0
    ensures var g: Graph := map[0 := [newId]];
      && !Closed(g) && placeholder !in g && newId !in g && Known(g, [0])
      && Acyclic(g[placeholder := [0]]) && !Acyclic(g[newId := [0]])
  {
    var g: Graph := map[0 := [newId]];
    assert Edge(g, 0, newId);
    var h := g[placeholder := [0]];
    RankedIsAcyclic(h, v => if v == placeholder then 2 else if v == 0 then 1 else 0);
    var k := g[newId := [0]];
    assert Edge(k, 0, newId) && Edge(k, newId, 0);
    EdgeReaches(k, newId, 0);
    ClosingEdgeMakesCycle(k, 0, newId);
  }

  /** Replacing the successors of `x` in an acyclic graph closes a cycle exactly when one of the new
      successors already reaches `x`. */
  lemma ReplacingSuccessors(g: Graph, x: nat, deps: seq<nat>)
    requires Acyclic(g)
    ensures Acyclic(g[x := deps]) <==> forall d :: d in deps ==> !Reaches(g, d, x)
  {
    var h := g[x := deps];
    assert forall a :: a != x ==> Succ(g, a) == Succ(h, a);
    assert Succ(h, x) == deps;
    forall d | d in deps && Reaches(g, d, x) ensures OnCycle(h, x) {
      var p :| WalkFromTo(g, p, d, x);
      ReachIgnoresTarget(g, h, x, p);
      ClosingEdgeMakesCycle(h, x, d);
    }
    if !Acyclic(h) {
      var v :| OnCycle(h, v);
      var p :| WalkFromTo(h, p, v, v) && |p| > 1;
      if i :| 0 <= i < |p| && p[i] == x {
        RotateCycle(h, p, i);
        var d := CycleThroughFirstEdge(h, x);
        var q :| WalkFromTo(h, q, d, x);
        ReachIgnoresTarget(h, g, x, q);
        assert d in deps && Reaches(g, d, x);
      } else {
        CycleAvoiding(h, g, x, p, v);
        assert false;
      }
    }
  }

  /** A walk that ends elsewhere either never uses the successors of `x`, or passes through `x`. */
  lemma {:induction false} AvoidsOrPasses(g: Graph, h: Graph, x: nat, p: seq<nat>)
    requires forall a :: a != x ==> Succ(g, a) == Succ(h, a)
    requires Walk(g, p)
    ensures Reaches(h, p[0], p[|p| - 1]) || (Reaches(h, p[0], x) && Reaches(g, x, p[|p| - 1]))
    decreases |p|
  {
    if |p| == 1 {
      ReachesSelf(h, p[0]);
    } else if p[0] == x {
      ReachesSelf(h, x);
      WalkReaches(g, p, |p| - 1);
    } else {
      assert Edge(g, p[0], p[1]);
      AvoidsOrPasses(g, h, x, p[1..]);
      EdgeReaches(h, p[0], p[1]);
      assert forall b :: Reaches(h, p[1], b) ==> Reaches(h, p[0], b) by {
        forall b | Reaches(h, p[1], b) ensures Reaches(h, p[0], b) {
          ReachesTransitive(h, p[0], p[1], b);
        }
      }
    }
  }

  ghost predicate SomeReaches(g: Graph, from: seq<nat>, to: nat) {
    exists d :: d in from && Reaches(g, d, to)
  }

  /** Once the successors of `x` are replaced without closing a cycle, `e` newly reaches `y` exactly when it
      reaches `x` and a new successor reaches `y`. */
  lemma NewlyReaches(g: Graph, x: nat, dx: seq<nat>, e: nat, y: nat)
    requires x != y && !SomeReaches(g, dx, x) && !Reaches(g, e, y)
    ensures Reaches(g[x := dx], e, y) <==> Reaches(g, e, x) && SomeReaches(g, dx, y)
  {
    var h := g[x := dx];
    assert forall a :: a != x ==> Succ(g, a) == Succ(h, a);
    if Reaches(h, e, y) {
      var p :| WalkFromTo(h, p, e, y);
      AvoidsOrPasses(h, g, x, p);
      var d := FirstEdgeOf(h, x, y);
      var q :| WalkFromTo(h, q, d, y);
      AvoidsOrPasses(h, g, x, q);
      assert d in dx && Reaches(g, d, y);
    }
    if Reaches(g, e, x) && SomeReaches(g, dx, y) {
      var d :| d in dx && Reaches(g, d, y);
      var q :| WalkFromTo(g, q, d, y);
      AvoidsOrPasses(g, h, x, q);
      if Reaches(h, d, x) {
        var r :| WalkFromTo(h, r, d, x);
        ReachIgnoresTarget(h, g, x, r);
      }
      ReachesByFirstEdge(h, x, d, y);
      var p :| WalkFromTo(g, p, e, x);
      ReachIgnoresTarget(g, h, x, p);
      ReachesTransitive(h, e, x, y);
    }
  }

  /** Two replacements, each of which alone closes no cycle, close one together exactly when a new successor of
      each node reaches the other node. */
  lemma TwoReplacements(g: Graph, x: nat, dx: seq<nat>, y: nat, dy: seq<nat>)
    requires Acyclic(g) && x != y && Acyclic(g[x := dx]) && Acyclic(g[y := dy])
    ensures Acyclic(g[x := dx][y := dy]) <==> !(SomeReaches(g, dx, y) && SomeReaches(g, dy, x))
  {
    var h := g[x := dx];
    ReplacingSuccessors(g, x, dx);
    ReplacingSuccessors(g, y, dy);
    ReplacingSuccessors(h, y, dy);
    forall e | e in dy ensures Reaches(h, e, y) <==> Reaches(g, e, x) && SomeReaches(g, dx, y) {
      NewlyReaches(g, x, dx, e, y);
    }
  }
}
