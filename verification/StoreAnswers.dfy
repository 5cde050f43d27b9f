/** What each request to the service store answers, exactly, in terms of the request, the actor and the tables. */
module StoreAnswers {
  import opened Wrappers
  import opened Actors
  import opened Ordered
  import opened Graphs
  import opened ServiceStore
  import opened StoreRuns

  /** Administrators and PKI operators act for every team, service owners for their own, and nobody else for any. */
  ghost predicate ActsFor(actor: Actor, team: string) {
    match actor.role
    case Admin => true
    case PkiOperator => true
    case ServiceOwner => actor.team == team
    case SecurityReviewer => false
    case Auditor => false
  }

  ghost predicate ProperRequest(r: Request) {
    && 2 <= |r.name| <= 160 && 2 <= |r.ownerTeam| <= 160 && r.chainId > 0
    && (r.environment == "development" || r.environment == "staging" || r.environment == "production"
        || r.environment == "disaster_recovery")
    && (r.protocol == "tls" || r.protocol == "mtls" || r.protocol == "ldaps" || r.protocol == "smtps"
        || r.protocol == "kafka_tls")
    && (r.criticality == "low" || r.criticality == "medium" || r.criticality == "high" || r.criticality == "critical")
    && 1 <= |r.trustRefs| <= 32 && (forall a :: a in r.trustRefs ==> a > 0)
    && |r.dependencies| <= 64 && (forall d :: d in r.dependencies ==> d > 0)
  }

  lemma ProperExactly(r: Request)
    ensures ValidRequest(r) <==> ProperRequest(r)
  {
    PositiveExactly(r.trustRefs);
    PositiveExactly(r.dependencies);
  }

  lemma PositiveExactly(ids: seq<nat>)
    ensures AllPositive(ids) <==> forall x :: x in ids ==> x > 0
  {
    if forall x :: x in ids ==> x > 0 {
      assert forall i :: 0 <= i < |ids| ==> ids[i] in ids;
    }
  }

  // ---------- references ----------

  ghost predicate TrustKnown(r: Request, env: Environment) {
    forall a :: a in r.trustRefs && a > 0 ==> a in env.anchors
  }

  ghost predicate Suits(rows: Rows, self: nat, d: nat) {
    d in rows && (self == 0 || d != self)
  }

  /** Every dependency is a row, and none is the service itself; `self` is 0 for a service that does not exist yet. */
  ghost predicate DependenciesKnown(rows: Rows, self: nat, r: Request) {
    forall d :: d in r.dependencies && d > 0 ==> Suits(rows, self, d)
  }

  ghost predicate NamesItself(self: nat, r: Request) {
    self > 0 && self in r.dependencies
  }

  ghost predicate AllKnownBelow(rows: Rows, edges: seq<nat>, bound: nat) {
    forall d :: d in edges && 0 < d < bound ==> d in rows
  }

  lemma {:induction false} NoEdgeErrorExactly(rows: Rows, self: nat, edges: seq<nat>)
    ensures EdgeError(rows, self, edges).None? <==> forall d :: d in edges ==> Suits(rows, self, d)
  {
    if edges != [] {
      var first, rest := edges[0], edges[1..];
      NoEdgeErrorExactly(rows, self, rest);
      assert first in edges && forall d :: d in rest ==> d in edges;
      assert Suits(rows, self, first) <==> !(first == self && self != 0) && first in rows;
      if Suits(rows, self, first) && forall d :: d in rest ==> Suits(rows, self, d) {
        forall d | d in edges ensures Suits(rows, self, d) {
          assert d == first || d in rest;
        }
      }
    }
  }

  lemma {:induction false} SelfErrorExactly(rows: Rows, self: nat, edges: seq<nat>)
    requires StrictlyAscending(edges) && forall d :: d in edges ==> d > 0
    ensures EdgeError(rows, self, edges) == Some(SelfDependency) <==>
            self > 0 && self in edges && AllKnownBelow(rows, edges, self)
  {
    if edges != [] {
      var first, rest := edges[0], edges[1..];
      assert forall d :: d in edges <==> d == first || d in rest;
      forall d | d in rest ensures first < d {
        var i :| 0 <= i < |rest| && rest[i] == d;
      }
      if first != self && first in rows {
        SelfErrorExactly(rows, self, rest);
      }
    }
  }

  /** References are checked in order: the chain, the anchors, and then the dependencies from the least on. */
  lemma ReferencesAnswer(rows: Rows, self: nat, r: Request, env: Environment)
    ensures var err, chain := ReferenceError(rows, self, r, env), r.chainId in env.chains;
      && (err.None? <==> chain && TrustKnown(r, env) && DependenciesKnown(rows, self, r))
      && (err == Some(ChainNotFound) <==> !chain)
      && (err == Some(AnchorMissing) <==> chain && !TrustKnown(r, env))
      && (err == Some(SelfDependency) <==>
            chain && TrustKnown(r, env) && NamesItself(self, r) && AllKnownBelow(rows, r.dependencies, self))
      && (err == Some(UnknownDependency) <==>
            && chain && TrustKnown(r, env) && !DependenciesKnown(rows, self, r)
            && !(NamesItself(self, r) && AllKnownBelow(rows, r.dependencies, self)))
  {
    var edges := CanonicalIds(r.dependencies);
    NoEdgeErrorExactly(rows, self, edges);
    SelfErrorExactly(rows, self, edges);
    EdgeErrorKinds(rows, self, edges);
    assert AllKnownBelow(rows, edges, self) <==> AllKnownBelow(rows, r.dependencies, self);
    assert TrustKnown(r, env) <==> !exists a :: a in CanonicalIds(r.trustRefs) && a !in env.anchors;
  }

  // ---------- requests ----------

  /** A creation in a valid store is refused for the first of these that fails, and never for a cycle. */
  lemma CreationAnswers(rows: Rows, code: string, r: Request, actor: Actor, env: Environment)
    requires ValidStore(rows)
    ensures var err, proper := CreateError(rows, code, r, actor, env), 3 <= |code| <= 80 && ProperRequest(r);
      var refs, entitled := ReferenceError(rows, 0, r, env), ActsFor(actor, r.ownerTeam);
      var unused := forall id :: id in rows ==> rows[id].code != code;
      && (!proper <==> err == Some(InvalidRequest))
      && (proper && !entitled <==> err == Some(Forbidden))
      && (proper && entitled && refs.Some? ==> err == refs)
      && (proper && entitled && refs.None? && !unused <==> err == Some(DuplicateCode))
      && (proper && entitled && refs.None? && unused && !env.auditWorks <==> err == Some(AuditFailed))
      && (proper && entitled && refs.None? && unused && env.auditWorks <==> err == None)
  {
    ProperExactly(r);
    ReferencesAnswer(rows, 0, r, env);
    CreationIsNeverCyclic(rows, code, r, actor, env);
  }

  /** An update in a valid store is refused for the first of these that fails; for a cycle, if a requested dependency
      already depends on the service. A service owner cannot hand the service over to another team. */
  lemma UpdateAnswers(rows: Rows, id: nat, r: Request, actor: Actor, env: Environment)
    requires ValidStore(rows)
    ensures var err, known := UpdateError(rows, id, r, actor, env), ProperRequest(r) && id in rows;
      && (err == Some(InvalidRequest) <==> !ProperRequest(r))
      && (err == Some(ServiceNotFound) <==> ProperRequest(r) && id !in rows)
      && (known ==>
            var entitled := ActsFor(actor, rows[id].ownerTeam)
              && (actor.role.ServiceOwner? ==> r.ownerTeam == actor.team);
            var refs := ReferenceError(rows, id, r, env);
            var cyclic := exists d :: d in r.dependencies && d > 0 && Reaches(StoreGraph(rows), d, id);
            && (!entitled <==> err == Some(Forbidden))
            && (entitled && refs.Some? ==> err == refs)
            && (entitled && refs.None? && cyclic <==> err == Some(GraphRejected))
            && (entitled && refs.None? && !cyclic && !env.auditWorks <==> err == Some(AuditFailed))
            && (entitled && refs.None? && !cyclic && env.auditWorks <==> err == None))
  {
    ProperExactly(r);
    ReferencesAnswer(rows, id, r, env);
    if id in rows && ReferenceError(rows, id, r, env).None? {
      UpdateIsCyclicExactly(rows, id, r, env);
      assert forall d :: d in CanonicalIds(r.dependencies) <==> d in r.dependencies && d > 0;
    }
  }

  lemma DeactivationAnswers(rows: Rows, id: nat, actor: Actor, env: Environment)
    ensures var err := DeactivateError(rows, id, actor, env);
      && (err == Some(ServiceNotFound) <==> id !in rows)
      && (id in rows ==>
            var row := rows[id];
            && (err == Some(Forbidden) <==> !ActsFor(actor, row.ownerTeam))
            && (err == Some(AlreadyInactive) <==> ActsFor(actor, row.ownerTeam) && row.state.Inactive?)
            && (err == Some(AuditFailed) <==> ActsFor(actor, row.ownerTeam) && row.state.Active? && !env.auditWorks)
            && (err == None <==> ActsFor(actor, row.ownerTeam) && row.state.Active? && env.auditWorks))
  {
  }

  // ---------- writes ----------

  /** What accepted requests write, row by row and column by column; refused ones write nothing. */
  lemma RequestsWrite(rows: Rows, op: StoreOp, actor: Actor, env: Environment)
    requires Assignable(rows, op)
    ensures var after := Apply(rows, op, actor, env);
      if ErrorOf(rows, op, actor, env).None? then
        match op
        case Create(code, r, newId) => Created(rows, after, code, r, newId)
        case Update(id, r) => Updated(rows, after, id, r)
        case Deactivate(id) => Deactivated(rows, after, id)
      else after == rows
  {
  }
}
