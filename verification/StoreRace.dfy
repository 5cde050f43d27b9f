/** What happens when requests to the store are not atomic. The program checks the graph before it opens the transaction
    that writes the row; here two requests are each checked against the same table and then both written. */
module StoreRace {
  import opened Wrappers
  import opened Actors
  import opened Ordered
  import opened Graphs
  import opened GraphEdits
  import opened ServiceStore
  import opened StoreRuns
  import Snapshots

  ghost function EditedGraph(g: Graph, op: StoreOp): Graph {
    match op
    case Create(_, r, newId) => g[newId := CanonicalIds(r.dependencies)]
    case Update(id, r) => if id in g then g[id := CanonicalIds(r.dependencies)] else g
    case Deactivate(_) => g
  }

  lemma GraphOfWritten(rows: Rows, op: StoreOp)
    ensures StoreGraph(Written(rows, op)) == EditedGraph(StoreGraph(rows), op)
  {
    if !op.Deactivate? {
      CanonicalIsStable(op.request.dependencies);
    }
  }

  /** The edit only points at existing nodes, and neither opens the graph nor closes a cycle. */
  ghost predicate GoodEdit(g: Graph, op: StoreOp) {
    && Acyclic(EditedGraph(g, op)) && Closed(EditedGraph(g, op))
    && (!op.Deactivate? ==> Known(g, CanonicalIds(op.request.dependencies)))
    && (op.Create? ==> op.newId !in g) && (op.Update? ==> op.id in g)
  }

  /** A request that is accepted on its own edits the graph without opening it or closing a cycle. */
  lemma AcceptedAlone(rows: Rows, op: StoreOp, actor: Actor, env: Environment)
    requires ValidStore(rows) && Assignable(rows, op) && ErrorOf(rows, op, actor, env).None?
    ensures GoodEdit(StoreGraph(rows), op)
  {
    StepKeepsValid(rows, op, actor, env);
    GraphOfWritten(rows, op);
    if !op.Deactivate? {
      var self := if op.Create? then 0 else op.id;
      NoEdgeErrorMeansKnown(rows, self, CanonicalIds(op.request.dependencies));
    }
  }

  /** Two updates of different services, each with a dependency that already depends on the other service. */
  ghost predicate CloseTogether(rows: Rows, first: StoreOp, second: StoreOp) {
    && first.Update? && second.Update? && first.id != second.id
    && SomeReaches(StoreGraph(rows), CanonicalIds(first.request.dependencies), second.id)
    && SomeReaches(StoreGraph(rows), CanonicalIds(second.request.dependencies), first.id)
  }

  lemma KnownKeepsClosed(g: Graph, x: nat, deps: seq<nat>)
    requires Closed(g) && Known(g, deps)
    ensures Closed(g[x := deps])
  {
    var h := g[x := deps];
    forall a, b | Edge(h, a, b) ensures b in h {
      if a != x {
        assert Edge(g, a, b);
      }
    }
  }

  /** A creation cannot close a cycle with any other request, in either order. */
  lemma CreationRacesSafely(g: Graph, x: nat, dx: seq<nat>, y: nat, dy: seq<nat>)
    requires Closed(g) && x !in g && x != y && Known(g, dx) && Known(g, dy)
    requires Acyclic(g[y := dy])
    ensures Acyclic(g[x := dx][y := dy]) && Acyclic(g[y := dy][x := dx])
  {
    KnownKeepsClosed(g, y, dy);
    NewSourceAddsNoCycle(g[y := dy], x, dx);
    var h, k: Graph := g[x := dx], g[y := dy];
    assert h[y := dy] == k[x := dx];
  }

  lemma EditsStayClosed(g: Graph, first: StoreOp, second: StoreOp)
    requires GoodEdit(g, first) && GoodEdit(g, second)
    ensures Closed(EditedGraph(EditedGraph(g, first), second))
  {
    if !second.Deactivate? {
      var y := if second.Create? then second.newId else second.id;
      KnownKeepsClosed(EditedGraph(g, first), y, CanonicalIds(second.request.dependencies));
    }
  }

  lemma CreationsRace(g: Graph, first: StoreOp, second: StoreOp)
    requires Closed(g) && GoodEdit(g, first) && GoodEdit(g, second) && (first.Create? || second.Create?)
    requires first.Create? && second.Create? ==> first.newId != second.newId
    ensures Acyclic(EditedGraph(EditedGraph(g, first), second))
  {
    if first.Create? && !second.Deactivate? {
      var y := if second.Create? then second.newId else second.id;
      CreationRacesSafely(g, first.newId, CanonicalIds(first.request.dependencies), y,
                          CanonicalIds(second.request.dependencies));
    } else if second.Create? && first.Update? {
      CreationRacesSafely(g, second.newId, CanonicalIds(second.request.dependencies), first.id,
                          CanonicalIds(first.request.dependencies));
    }
  }

  lemma UpdatesRace(g: Graph, first: StoreOp, second: StoreOp)
    requires Acyclic(g) && GoodEdit(g, first) && GoodEdit(g, second) && first.Update? && second.Update?
    ensures var dx, dy := CanonicalIds(first.request.dependencies), CanonicalIds(second.request.dependencies);
      Acyclic(EditedGraph(EditedGraph(g, first), second)) <==>
      !(first.id != second.id && SomeReaches(g, dx, second.id) && SomeReaches(g, dy, first.id))
  {
    var dx, dy := CanonicalIds(first.request.dependencies), CanonicalIds(second.request.dependencies);
    if first.id == second.id {
      var h: Graph := g[first.id := dx];
      assert h[first.id := dy] == g[first.id := dy];
    } else {
      TwoReplacements(g, first.id, dx, second.id, dy);
    }
  }

  /** The race, exactly. When two requests are each accepted against the same table and then both written, the graph
      stays closed, and it stays acyclic unless they are two updates that close a cycle together. */
  lemma CheckedApartThenWritten(rows: Rows, first: StoreOp, second: StoreOp, a: Actor, b: Actor,
                                e: Environment, f: Environment)
    requires ValidStore(rows) && Assignable(rows, first) && Assignable(rows, second)
    requires first.Create? && second.Create? ==> first.newId != second.newId
    requires ErrorOf(rows, first, a, e).None? && ErrorOf(rows, second, b, f).None?
    ensures var g := StoreGraph(Written(Written(rows, first), second));
      Closed(g) && (Acyclic(g) <==> !CloseTogether(rows, first, second))
  {
    var g := StoreGraph(rows);
    AcceptedAlone(rows, first, a, e);
    AcceptedAlone(rows, second, b, f);
    GraphOfWritten(rows, first);
    GraphOfWritten(Written(rows, first), second);
    EditsStayClosed(g, first, second);
    if first.Update? && second.Update? {
      UpdatesRace(g, first, second);
    } else if first.Create? || second.Create? {
      CreationsRace(g, first, second);
    }
  }

  lemma {:induction false} SameEdgeErrors(rows: Rows, after: Rows, self: nat, edges: seq<nat>)
    requires rows.Keys == after.Keys
    ensures EdgeError(after, self, edges) == EdgeError(rows, self, edges)
  {
    if edges != [] {
      SameEdgeErrors(rows, after, self, edges[1..]);
    }
  }

  /** Written one after the other, as the atomic requests of `StoreRuns` are, the second of two such updates is
      refused exactly when they would close a cycle together. */
  lemma WrittenInTurnIsRefusedExactly(rows: Rows, first: StoreOp, second: StoreOp, a: Actor, b: Actor,
                                      e: Environment, f: Environment)
    requires ValidStore(rows) && first.Update? && second.Update? && first.id != second.id
    requires ErrorOf(rows, first, a, e).None? && ErrorOf(rows, second, b, f).None?
    ensures ErrorOf(Written(rows, first), second, b, f)
            == if CloseTogether(rows, first, second) then Some(GraphRejected) else None
  {
    var after := Written(rows, first);
    CheckedApartThenWritten(rows, first, second, a, b, e, f);
    SameEdgeErrors(rows, after, second.id, CanonicalIds(second.request.dependencies));
    assert ReferenceError(after, second.id, second.request, f).None?;
    assert after[second.id] == rows[second.id];
  }

  // ---------- the smallest such race ----------

  const SERVICE := Service("first", "first", "team", "staging", 1, [1], "tls", "high", [], Snapshots.Active)
  const ROWS: Rows := map[1 := SERVICE, 2 := SERVICE.(code := "second")]
  const ADMIN := Actor(1, Admin, "team")
  const ENV := Environment({1}, {1}, true)

  function PointAt(id: nat, other: nat): StoreOp {
    Update(id, Request("first", "team", "staging", 1, [1], "tls", "high", [other]))
  }

  lemma RowsAreValid()
    ensures ValidStore(ROWS) && forall a, b :: Reaches(StoreGraph(ROWS), a, b) ==> a == b
  {
    var g := StoreGraph(ROWS);
    RankedIsAcyclic(g, v => 0);
    forall a, b | Reaches(g, a, b) ensures a == b {
      if a != b {
        var d := FirstEdgeOf(g, a, b);
      }
    }
  }

  lemma PointingIsKnown(id: nat, other: nat)
    requires id in {1, 2} && other in {1, 2} && id != other
    ensures CanonicalIds([other]) == [other]
    ensures ReferenceError(ROWS, id, PointAt(id, other).request, ENV).None?
  {
    CanonicalIdsCharacterised([other], [other]);
    CanonicalIdsCharacterised([1], [1]);
    assert [other][1..] == [];
    assert EdgeError(ROWS, id, [other]).None?;
  }

  lemma PointingClosesNoCycle(id: nat, other: nat)
    requires id in {1, 2} && other in {1, 2} && id != other
    ensures GraphAccepted(ROWS[id := UpdatedRow(ROWS[id], PointAt(id, other).request)])
  {
    RowsAreValid();
    PointingIsKnown(id, other);
    UpdateIsCyclicExactly(ROWS, id, PointAt(id, other).request, ENV);
  }

  lemma PointingIsAccepted(id: nat, other: nat)
    requires id in {1, 2} && other in {1, 2} && id != other
    ensures UpdateError(ROWS, id, PointAt(id, other).request, ADMIN, ENV).None?
    ensures SomeReaches(StoreGraph(ROWS), CanonicalIds(PointAt(id, other).request.dependencies), other)
  {
    PointingIsKnown(id, other);
    PointingClosesNoCycle(id, other);
    ReachesSelf(StoreGraph(ROWS), other);
    assert other in [other];
  }

  /** Two services without dependencies: each update is accepted, and the two together leave a cycle. */
  lemma RacingUpdatesCanCloseACycle()
    ensures ValidStore(ROWS)
    ensures ErrorOf(ROWS, PointAt(1, 2), ADMIN, ENV).None? && ErrorOf(ROWS, PointAt(2, 1), ADMIN, ENV).None?
    ensures !Acyclic(StoreGraph(Written(Written(ROWS, PointAt(1, 2)), PointAt(2, 1))))
  {
    RowsAreValid();
    PointingIsAccepted(1, 2);
    PointingIsAccepted(2, 1);
    CheckedApartThenWritten(ROWS, PointAt(1, 2), PointAt(2, 1), ADMIN, ADMIN, ENV, ENV);
  }
}
