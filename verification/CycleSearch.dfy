/** The depth-first three-colour search, run by the simulator before every simulation
    (`detectCycle`) and by the service store before every write (`servicesContainCycle`).
    The two differ in one check only: the store also rejects an edge to an unknown service. */
module CycleSearch {
  import opened Wrappers
  import opened Graphs

  datatype Mark = Visiting | Done

  datatype GraphError = CycleAt(id: nat) | MissingDependency(id: nat)

  /** What an error report claims about the graph. */
  ghost predicate Justified(g: Graph, e: GraphError) {
    match e
    case CycleAt(id) => OnCycle(g, id)
    case MissingDependency(id) => id !in g && exists a :: Edge(g, a, id)
  }

  ghost function Nodes(g: Graph): set<nat> {
    g.Keys + set a, i | a in g && 0 <= i < |g[a]| :: g[a][i]
  }

  lemma EdgeTargetIsNode(g: Graph, a: nat, i: nat)
    requires i < |Succ(g, a)|
    ensures Succ(g, a)[i] in Nodes(g)
  {
  }

  ghost predicate Finished(marks: map<nat, Mark>, v: nat) {
    v in marks && marks[v] == Done
  }

  ghost predicate AllFinished(marks: map<nat, Mark>, vs: seq<nat>) {
    forall v :: v in vs ==> Finished(marks, v)
  }

  /** The first `n` successors are finished and, in the strict search, known. */
  ghost predicate Explored(g: Graph, strict: bool, marks: map<nat, Mark>, vs: seq<nat>, n: nat)
    requires n <= |vs|
  {
    forall j :: 0 <= j < n ==> Finished(marks, vs[j]) && (strict ==> vs[j] in g)
  }

  lemma ExploreNext(g: Graph, strict: bool, earlier: map<nat, Mark>, later: map<nat, Mark>, vs: seq<nat>, n: nat)
    requires n < |vs| && Explored(g, strict, earlier, vs, n)
    requires Grows(earlier, later) && Finished(later, vs[n]) && (strict ==> vs[n] in g)
    ensures Explored(g, strict, later, vs, n + 1)
  {
  }

  /** The nodes being visited are the walk from the outermost call to the current one;
      a finished node is on no cycle and all its successors are finished. */
  ghost predicate Consistent(g: Graph, strict: bool, marks: map<nat, Mark>, stack: seq<nat>) {
    && (stack != [] ==> Walk(g, stack))
    && (forall v :: v in stack <==> v in marks && marks[v] == Visiting)
    && (forall a :: Finished(marks, a) ==> AllFinished(marks, Succ(g, a)))
    && (forall a, b :: Finished(marks, a) && strict && Edge(g, a, b) ==> b in g)
    && (forall v :: Finished(marks, v) ==> !OnCycle(g, v))
  }

  /** `later` keeps every finished node of `earlier` and forgets no mark. */
  ghost predicate Grows(earlier: map<nat, Mark>, later: map<nat, Mark>) {
    && earlier.Keys <= later.Keys
    && forall v :: Finished(earlier, v) ==> Finished(later, v)
  }

  lemma StartVisit(g: Graph, strict: bool, marks: map<nat, Mark>, stack: seq<nat>, id: nat)
    requires Consistent(g, strict, marks, stack) && id !in marks
    requires stack != [] ==> Edge(g, stack[|stack| - 1], id)
    ensures Consistent(g, strict, marks[id := Visiting], stack + [id])
    ensures Grows(marks, marks[id := Visiting])
  {
    var marks' := marks[id := Visiting];
    forall v ensures Finished(marks', v) <==> Finished(marks, v) {}
    forall v ensures v in stack + [id] <==> v in marks' && marks'[v] == Visiting {
      assert v in stack + [id] <==> v in stack || v == id;
    }
  }

  lemma FinishVisit(g: Graph, strict: bool, marks: map<nat, Mark>, stack: seq<nat>, id: nat)
    requires Consistent(g, strict, marks, stack + [id]) && id !in stack
    requires Explored(g, strict, marks, Succ(g, id), |Succ(g, id)|)
    ensures Consistent(g, strict, marks[id := Done], stack)
    ensures Grows(marks, marks[id := Done])
  {
    var marks' := marks[id := Done];
    assert id in stack + [id];
    assert !OnCycle(g, id) by {
      FinishedSuccessorsMeanNoCycle(g, marks, id);
    }
    forall v ensures Finished(marks', v) <==> Finished(marks, v) || v == id {}
    forall v ensures v in stack <==> v in marks' && marks'[v] == Visiting {
      assert v in stack + [id] <==> v in stack || v == id;
    }
    assert stack != [] ==> Walk(g, stack) by {
      assert forall i :: 0 <= i < |stack| ==> (stack + [id])[i] == stack[i];
      assert forall i :: 0 <= i < |stack| - 1 ==> Edge(g, (stack + [id])[i], (stack + [id])[i + 1]);
    }
  }

  /** A node that is not finished, but whose successors all are, is on no cycle. */
  lemma FinishedSuccessorsMeanNoCycle(g: Graph, marks: map<nat, Mark>, id: nat)
    requires forall a :: Finished(marks, a) ==> AllFinished(marks, Succ(g, a))
    requires !Finished(marks, id) && AllFinished(marks, Succ(g, id))
    ensures !OnCycle(g, id)
  {
    if OnCycle(g, id) {
      var d := CycleThroughFirstEdge(g, id);
      var done := set v | v in marks && marks[v] == Done;
      ReachStaysInside(g, done, d, id);
    }
  }

  lemma BackEdgeMakesCycle(g: Graph, stack: seq<nat>, id: nat)
    requires Walk(g, stack) && id in stack && Edge(g, stack[|stack| - 1], id)
    ensures OnCycle(g, id)
  {
    var i :| 0 <= i < |stack| && stack[i] == id;
    assert WalkFromTo(g, stack[i..] + [id], id, id);
  }

  class Search {
    const edges: Graph
    /** Whether an edge to a node that is not a key is an error. */
    const strict: bool
    var marks: map<nat, Mark>

    constructor (edges: Graph, strict: bool)
      ensures this.edges == edges && this.strict == strict && marks == map[]
    {
      this.edges, this.strict, this.marks := edges, strict, map[];
    }

    method Visit(id: nat, ghost stack: seq<nat>) returns (err: Option<GraphError>)
      requires Consistent(edges, strict, marks, stack) && id in Nodes(edges)
      requires stack != [] ==> Edge(edges, stack[|stack| - 1], id)
      modifies this`marks
      ensures Grows(old(marks), marks)
      ensures err.None? ==> Consistent(edges, strict, marks, stack) && Finished(marks, id)
      ensures err.Some? ==> Justified(edges, err.value)
      ensures err.Some? && err.value.MissingDependency? ==> strict
      decreases Nodes(edges) - marks.Keys
    {
      if id in marks && marks[id] == Visiting {
        BackEdgeMakesCycle(edges, stack, id);
        return Some(CycleAt(id));
      }
      if id in marks && marks[id] == Done {
        return None;
      }
      StartVisit(edges, strict, marks, stack, id);
      marks := marks[id := Visiting];
      var successors := if id in edges then edges[id] else [];
      for i := 0 to |successors|
        invariant Consistent(edges, strict, marks, stack + [id])
        invariant Grows(old(marks), marks) && id in marks
        invariant Explored(edges, strict, marks, successors, i)
      {
        var next := successors[i];
        assert Edge(edges, id, next);
        if strict && next !in edges {
          return Some(MissingDependency(next));
        }
        EdgeTargetIsNode(edges, id, i);
        ghost var earlier := marks;
        err := Visit(next, stack + [id]);
        if err.Some? {
          return;
        }
        ExploreNext(edges, strict, earlier, marks, successors, i);
      }
      FinishVisit(edges, strict, marks, stack, id);
      marks := marks[id := Done];
      err := None;
    }

    /** Starts a visit at every key, in any order. */
    method VisitAll() returns (err: Option<GraphError>)
      requires marks == map[]
      modifies this`marks
      ensures err.None? <==> Acyclic(edges) && (strict ==> Closed(edges))
      ensures err.Some? ==> Justified(edges, err.value)
      ensures err.Some? && err.value.MissingDependency? ==> strict
    {
      var remaining := edges.Keys;
      while remaining != {}
        invariant Consistent(edges, strict, marks, [])
        invariant remaining <= edges.Keys
        invariant forall v :: v in edges && v !in remaining ==> Finished(marks, v)
      {
        var id :| id in remaining;
        err := Visit(id, []);
        if err.Some? {
          return;
        }
        remaining := remaining - {id};
      }
      forall v ensures !OnCycle(edges, v) {
        if v !in edges {
          NoCycleWithoutSuccessor(edges, v);
        }
      }
      err := None;
    }
  }

  lemma NoCycleWithoutSuccessor(g: Graph, v: nat)
    requires Succ(g, v) == []
    ensures !OnCycle(g, v)
  {
    if OnCycle(g, v) {
      var d := CycleThroughFirstEdge(g, v);
    }
  }

  /** The cycle check fails exactly on the graphs that have a cycle, and names a service on one. */
  method DetectCycle(edges: Graph) returns (err: Option<nat>)
    ensures err.None? <==> Acyclic(edges)
    ensures err.Some? ==> OnCycle(edges, err.value)
  {
    var search := new Search(edges, false);
    var e := search.VisitAll();
    err := if e.None? then None else Some(e.value.id);
  }

  /** The store's check accepts exactly the closed acyclic graphs, and its error is true of the graph. */
  method ServicesContainCycle(edges: Graph) returns (err: Option<GraphError>)
    ensures err.None? <==> Acyclic(edges) && Closed(edges)
    ensures err.Some? ==> Justified(edges, err.value)
  {
    var search := new Search(edges, true);
    err := search.VisitAll();
  }
}
