/** What every sequence of requests to the service store keeps. */
module StoreRuns {
  import opened Wrappers
  import opened Actors
  import opened Ordered
  import opened Graphs
  import opened GraphEdits
  import opened ServiceStore
  import Snapshots

  lemma {:induction false} NoEdgeErrorMeansKnown(rows: Rows, self: nat, edges: seq<nat>)
    requires EdgeError(rows, self, edges).None?
    ensures forall e :: e in edges ==> e in rows && (self != 0 ==> e != self)
  {
    if edges != [] {
      NoEdgeErrorMeansKnown(rows, self, edges[1..]);
      assert forall e :: e in edges <==> e == edges[0] || e in edges[1..];
    }
  }

  lemma GraphOfUpdate(rows: Rows, id: nat, row: Service)
    ensures StoreGraph(rows[id := row]) == StoreGraph(rows)[id := CanonicalIds(row.dependencies)]
  {
  }

  lemma CanonicalIsStable(ids: seq<nat>)
    ensures CanonicalIds(CanonicalIds(ids)) == CanonicalIds(ids)
  {
    CanonicalIdsCharacterised(CanonicalIds(ids), CanonicalIds(ids));
  }

  /** The check under the placeholder is as good as one under the identifier that the database assigns. */
  lemma PlaceholderCheckTransfers(rows: Rows, code: string, r: Request, env: Environment, newId: nat)
    requires Closed(StoreGraph(rows)) && PLACEHOLDER !in rows && newId !in rows
    requires ReferenceError(rows, 0, r, env).None?
    ensures GraphAccepted(rows[PLACEHOLDER := NewRow(code, r)]) <==> GraphAccepted(rows[newId := NewRow(code, r)])
    ensures Acyclic(StoreGraph(rows)) ==> GraphAccepted(rows[newId := NewRow(code, r)])
  {
    var g, deps := StoreGraph(rows), CanonicalIds(r.dependencies);
    NoEdgeErrorMeansKnown(rows, 0, deps);
    CanonicalIsStable(r.dependencies);
    GraphOfUpdate(rows, PLACEHOLDER, NewRow(code, r));
    GraphOfUpdate(rows, newId, NewRow(code, r));
    RenamingNewNode(g, PLACEHOLDER, newId, deps);
    NewSourceAddsNoCycle(g, newId, deps);
  }

  /** In a valid store the cycle check of a creation never rejects: a new service closes no cycle. */
  lemma CreationIsNeverCyclic(rows: Rows, code: string, r: Request, actor: Actor, env: Environment)
    requires ValidStore(rows)
    ensures CreateError(rows, code, r, actor, env) != Some(GraphRejected)
  {
    if ReferenceError(rows, 0, r, env).None? {
      PlaceholderCheckTransfers(rows, code, r, env, PLACEHOLDER);
    }
    EdgeErrorKinds(rows, 0, CanonicalIds(r.dependencies));
  }

  lemma {:induction false} EdgeErrorKinds(rows: Rows, self: nat, edges: seq<nat>)
    ensures EdgeError(rows, self, edges) in {None, Some(SelfDependency), Some(UnknownDependency)}
  {
    if edges != [] {
      EdgeErrorKinds(rows, self, edges[1..]);
    }
  }

  /** An update that passes the earlier checks is rejected for a cycle exactly when one of the requested
      dependencies already depends, directly or not, on the service. */
  lemma UpdateIsCyclicExactly(rows: Rows, id: nat, r: Request, env: Environment)
    requires ValidStore(rows) && id in rows && ReferenceError(rows, id, r, env).None?
    ensures GraphAccepted(rows[id := UpdatedRow(rows[id], r)]) <==>
            forall d :: d in CanonicalIds(r.dependencies) ==> !Reaches(StoreGraph(rows), d, id)
  {
    var g, deps := StoreGraph(rows), CanonicalIds(r.dependencies);
    NoEdgeErrorMeansKnown(rows, id, deps);
    CanonicalIsStable(r.dependencies);
    GraphOfUpdate(rows, id, UpdatedRow(rows[id], r));
    ReplacingSuccessors(g, id, deps);
    var h := g[id := deps];
    forall a, b | Edge(h, a, b) ensures b in h {
      if a != id {
        assert Edge(g, a, b);
      }
    }
  }

  lemma CreationKeepsValid(rows: Rows, code: string, r: Request, newId: nat, actor: Actor, env: Environment)
    requires ValidStore(rows) && 0 < newId < PLACEHOLDER && newId !in rows
    requires CreateError(rows, code, r, actor, env).None?
    ensures ValidStore(rows[newId := NewRow(code, r)])
  {
    PlaceholderCheckTransfers(rows, code, r, env, newId);
    assert UniqueCodes(rows[newId := NewRow(code, r)]);
  }

  lemma UpdateKeepsValid(rows: Rows, id: nat, r: Request, actor: Actor, env: Environment)
    requires ValidStore(rows) && UpdateError(rows, id, r, actor, env).None?
    ensures ValidStore(rows[id := UpdatedRow(rows[id], r)])
  {
    assert UniqueCodes(rows[id := UpdatedRow(rows[id], r)]);
  }

  lemma DeactivationKeepsValid(rows: Rows, id: nat)
    requires ValidStore(rows) && id in rows
    ensures ValidStore(rows[id := rows[id].(state := Snapshots.Inactive)])
  {
    var after := rows[id := rows[id].(state := Snapshots.Inactive)];
    assert StoreGraph(after) == StoreGraph(rows);
    assert UniqueCodes(after);
  }

  /** Each request keeps the store valid, and no request deletes a row. */
  lemma StepKeepsValid(rows: Rows, op: StoreOp, actor: Actor, env: Environment)
    requires ValidStore(rows) && Assignable(rows, op)
    ensures ValidStore(Apply(rows, op, actor, env)) && rows.Keys <= Apply(rows, op, actor, env).Keys
  {
    match op
    case Create(code, r, newId) =>
      if CreateError(rows, code, r, actor, env).None? {
        CreationKeepsValid(rows, code, r, newId, actor, env);
      }
    case Update(id, r) =>
      if UpdateError(rows, id, r, actor, env).None? {
        UpdateKeepsValid(rows, id, r, actor, env);
      }
    case Deactivate(id) =>
      if DeactivateError(rows, id, actor, env).None? {
        DeactivationKeepsValid(rows, id);
      }
  }

  /** `states` is a run: each request is applied, by some actor in some environment, to the state before it. */
  ghost predicate IsRun(states: seq<Rows>, ops: seq<StoreOp>, actors: seq<Actor>, envs: seq<Environment>) {
    && |states| == |ops| + 1 && |actors| == |ops| && |envs| == |ops|
    && forall i :: 0 <= i < |ops| ==>
         Assignable(states[i], ops[i]) && states[i + 1] == Apply(states[i], ops[i], actors[i], envs[i])
  }

  /** Every run of creations, updates and deactivations keeps the dependency graph closed and acyclic. */
  lemma {:induction false} RunKeepsValid(
    states: seq<Rows>, ops: seq<StoreOp>, actors: seq<Actor>, envs: seq<Environment>, n: nat)
    requires IsRun(states, ops, actors, envs) && ValidStore(states[0]) && n < |states|
    ensures ValidStore(states[n])
  {
    if n > 0 {
      RunKeepsValid(states, ops, actors, envs, n - 1);
      StepKeepsValid(states[n - 1], ops[n - 1], actors[n - 1], envs[n - 1]);
    }
  }
}
