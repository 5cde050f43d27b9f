/** The table of dependent services and the requests that write it. Each request is one atomic step. */
module ServiceStore {
  import opened Wrappers
  import opened Ordered
  import opened Graphs
  import opened CycleSearch
  import opened Actors
  import Snapshots

  /** The identifier a new service has while its graph is checked: the largest unsigned 64-bit number. */
  const PLACEHOLDER: nat := 0xffff_ffff_ffff_ffff

  datatype Service = Service(
    code: string, name: string, ownerTeam: string, environment: string, chainId: nat, trustRefs: seq<nat>,
    protocol: string, criticality: string, dependencies: seq<nat>, state: Snapshots.ServiceState)

  /** What an update carries. A creation carries a code as well, which never changes afterwards. */
  datatype Request = Request(
    name: string, ownerTeam: string, environment: string, chainId: nat, trustRefs: seq<nat>,
    protocol: string, criticality: string, dependencies: seq<nat>)

  datatype StoreError =
    | InvalidRequest
    | Forbidden
    | ServiceNotFound
    | ChainNotFound
    | AnchorMissing
    | SelfDependency
    | UnknownDependency
    | GraphRejected
    | DuplicateCode
    | AlreadyInactive
    | AuditFailed

  type Rows = map<nat, Service>

  /** The other tables a request reads, and whether the audit record can be written. */
  datatype Environment = Environment(chains: set<nat>, anchors: set<nat>, auditWorks: bool)

  ghost function StoreGraph(rows: Rows): Graph {
    map id | id in rows :: CanonicalIds(rows[id].dependencies)
  }

  ghost predicate UniqueCodes(rows: Rows) {
    forall a, b :: a in rows && b in rows && rows[a].code == rows[b].code ==> a == b
  }

  ghost predicate ValidStore(rows: Rows) {
    && Closed(StoreGraph(rows)) && Acyclic(StoreGraph(rows))
    && UniqueCodes(rows)
    && forall id :: id in rows ==> 0 < id < PLACEHOLDER
  }

  predicate AllPositive(ids: seq<nat>) {
    forall i :: 0 <= i < |ids| ==> ids[i] > 0
  }

  const ENVIRONMENTS := ["development", "staging", "production", "disaster_recovery"]
  const PROTOCOLS := ["tls", "mtls", "ldaps", "smtps", "kafka_tls"]
  const CRITICALITIES := ["low", "medium", "high", "critical"]

  predicate ValidCode(code: string) {
    3 <= |code| <= 80
  }

  predicate ValidRequest(r: Request) {
    && 2 <= |r.name| <= 160 && 2 <= |r.ownerTeam| <= 160 && r.chainId > 0
    && r.environment in ENVIRONMENTS && r.protocol in PROTOCOLS && r.criticality in CRITICALITIES
    && 1 <= |r.trustRefs| <= 32 && AllPositive(r.trustRefs)
    && |r.dependencies| <= 64 && AllPositive(r.dependencies)
  }

  predicate MayModify(actor: Actor, team: string) {
    actor.role == Admin || actor.role == PkiOperator || (actor.role == ServiceOwner && actor.team == team)
  }

  function NewRow(code: string, r: Request): Service {
    Service(code, r.name, r.ownerTeam, r.environment, r.chainId, CanonicalIds(r.trustRefs), r.protocol, r.criticality,
            CanonicalIds(r.dependencies), Snapshots.Active)
  }

  function UpdatedRow(row: Service, r: Request): Service {
    row.(name := r.name, ownerTeam := r.ownerTeam, environment := r.environment, chainId := r.chainId,
         trustRefs := CanonicalIds(r.trustRefs), protocol := r.protocol, criticality := r.criticality,
         dependencies := CanonicalIds(r.dependencies))
  }

  // ---------- what an accepted request leaves in the table ----------

  ghost predicate OtherRowsKept(before: Rows, after: Rows, id: nat) {
    && after.Keys == before.Keys + {id}
    && forall other :: other in before && other != id ==> after[other] == before[other]
  }

  /** The row holds what the request carries; its lists are ascending and without repeats. */
  ghost predicate Carries(row: Service, r: Request) {
    && row.name == r.name && row.ownerTeam == r.ownerTeam && row.environment == r.environment
    && row.chainId == r.chainId && row.protocol == r.protocol && row.criticality == r.criticality
    && SamePositive(row.trustRefs, r.trustRefs) && StrictlyAscending(row.trustRefs)
    && SamePositive(row.dependencies, r.dependencies) && StrictlyAscending(row.dependencies)
  }

  ghost predicate Created(before: Rows, after: Rows, code: string, r: Request, newId: nat) {
    && OtherRowsKept(before, after, newId)
    && Carries(after[newId], r) && after[newId].code == code && after[newId].state.Active?
  }

  ghost predicate Updated(before: Rows, after: Rows, id: nat, r: Request) {
    && id in before && OtherRowsKept(before, after, id)
    && Carries(after[id], r) && after[id].code == before[id].code && after[id].state == before[id].state
  }

  ghost predicate Deactivated(before: Rows, after: Rows, id: nat) {
    && id in before && OtherRowsKept(before, after, id)
    && before[id].state.Active? && after[id].state.Inactive? && after[id].(state := before[id].state) == before[id]
  }

  // ---------- what each request does, as a function of the table ----------

  /** The first objection to a list of dependencies; `self` is 0 for a service that does not exist yet. */
  function EdgeError(rows: Rows, self: nat, edges: seq<nat>): Option<StoreError> {
    if edges == [] then None
    else if edges[0] == self && self != 0 then Some(SelfDependency)
    else if edges[0] !in rows then Some(UnknownDependency)
    else EdgeError(rows, self, edges[1..])
  }

  function ReferenceError(rows: Rows, self: nat, r: Request, env: Environment): Option<StoreError> {
    if r.chainId !in env.chains then Some(ChainNotFound)
    else if exists a :: a in CanonicalIds(r.trustRefs) && a !in env.anchors then Some(AnchorMissing)
    else EdgeError(rows, self, CanonicalIds(r.dependencies))
  }

  ghost predicate GraphAccepted(rows: Rows) {
    Acyclic(StoreGraph(rows)) && Closed(StoreGraph(rows))
  }

  predicate HasCode(rows: Rows, code: string) {
    exists id :: id in rows && rows[id].code == code
  }

  ghost function CreateError(rows: Rows, code: string, r: Request, actor: Actor, env: Environment): Option<StoreError> {
    if !ValidCode(code) || !ValidRequest(r) then Some(InvalidRequest)
    else if !MayModify(actor, r.ownerTeam) then Some(Forbidden)
    else if ReferenceError(rows, 0, r, env).Some? then ReferenceError(rows, 0, r, env)
    else if !GraphAccepted(rows[PLACEHOLDER := NewRow(code, r)]) then Some(GraphRejected)
    else if HasCode(rows, code) then Some(DuplicateCode)
    else if !env.auditWorks then Some(AuditFailed)
    else None
  }

  ghost function UpdateError(rows: Rows, id: nat, r: Request, actor: Actor, env: Environment): Option<StoreError> {
    if !ValidRequest(r) then Some(InvalidRequest)
    else if id !in rows then Some(ServiceNotFound)
    else if !MayModify(actor, rows[id].ownerTeam) then Some(Forbidden)
    else if actor.role == ServiceOwner && r.ownerTeam != actor.team then Some(Forbidden)
    else if ReferenceError(rows, id, r, env).Some? then ReferenceError(rows, id, r, env)
    else if !GraphAccepted(rows[id := UpdatedRow(rows[id], r)]) then Some(GraphRejected)
    else if !env.auditWorks then Some(AuditFailed)
    else None
  }

  ghost function DeactivateError(rows: Rows, id: nat, actor: Actor, env: Environment): Option<StoreError> {
    if id !in rows then Some(ServiceNotFound)
    else if !MayModify(actor, rows[id].ownerTeam) then Some(Forbidden)
    else if rows[id].state != Snapshots.Active then Some(AlreadyInactive)
    else if !env.auditWorks then Some(AuditFailed)
    else None
  }

  /** `newId` is the identifier the database assigns to the inserted row. */
  datatype StoreOp =
    | Create(code: string, request: Request, newId: nat)
    | Update(id: nat, request: Request)
    | Deactivate(id: nat)

  ghost function ErrorOf(rows: Rows, op: StoreOp, actor: Actor, env: Environment): Option<StoreError> {
    match op
    case Create(code, r, _) => CreateError(rows, code, r, actor, env)
    case Update(id, r) => UpdateError(rows, id, r, actor, env)
    case Deactivate(id) => DeactivateError(rows, id, actor, env)
  }

  /** What a request writes once it has been accepted: the columns it carries, of one row. */
  function Written(rows: Rows, op: StoreOp): Rows {
    match op
    case Create(code, r, newId) => rows[newId := NewRow(code, r)]
    case Update(id, r) => if id in rows then rows[id := UpdatedRow(rows[id], r)] else rows
    case Deactivate(id) => if id in rows then rows[id := rows[id].(state := Snapshots.Inactive)] else rows
  }

  ghost function Apply(rows: Rows, op: StoreOp, actor: Actor, env: Environment): Rows {
    if ErrorOf(rows, op, actor, env).None? then Written(rows, op) else rows
  }

  /** The database assigns positive identifiers that are not in use, below the placeholder. */
  ghost predicate Assignable(rows: Rows, op: StoreOp) {
    op.Create? ==> 0 < op.newId < PLACEHOLDER && op.newId !in rows
  }

  // ---------- the requests ----------

  class DependentServices {
    var rows: Rows

    constructor (rows: Rows)
      ensures this.rows == rows
    {
      this.rows := rows;
    }

    method ValidateReferences(self: nat, r: Request, env: Environment) returns (err: Option<StoreError>)
      ensures err == ReferenceError(rows, self, r, env)
    {
      if r.chainId !in env.chains {
        return Some(ChainNotFound);
      }
      var trust := SortedUnique(r.trustRefs);
      for i := 0 to |trust|
        invariant forall j :: 0 <= j < i ==> trust[j] in env.anchors
      {
        if trust[i] !in env.anchors {
          return Some(AnchorMissing);
        }
      }
      var edges := SortedUnique(r.dependencies);
      for i := 0 to |edges|
        invariant EdgeError(rows, self, edges) == EdgeError(rows, self, edges[i..])
      {
        assert edges[i..][1..] == edges[i + 1..];
        if edges[i] == self && self != 0 {
          return Some(SelfDependency);
        }
        if edges[i] !in rows {
          return Some(UnknownDependency);
        }
      }
      return None;
    }

    method CreateService(code: string, r: Request, newId: nat, actor: Actor, env: Environment)
      returns (result: Result<nat, StoreError>)
      requires Assignable(rows, Create(code, r, newId))
      modifies this
      ensures rows == Apply(old(rows), Create(code, r, newId), actor, env)
      ensures result == match CreateError(old(rows), code, r, actor, env) case None => Ok(newId) case Some(e) => Err(e)
      ensures if result.Ok? then Created(old(rows), rows, code, r, newId) else rows == old(rows)
    {
      if !ValidCode(code) || !ValidRequest(r) {
        return Err(InvalidRequest);
      }
      if !MayModify(actor, r.ownerTeam) {
        return Err(Forbidden);
      }
      var refs := ValidateReferences(0, r, env);
      if refs.Some? {
        return Err(refs.value);
      }
      var trust := SortedUnique(r.trustRefs);
      var edges := SortedUnique(r.dependencies);
      var service := Service(code, r.name, r.ownerTeam, r.environment, r.chainId, trust, r.protocol, r.criticality,
                             edges, Snapshots.Active);
      var candidate := rows[PLACEHOLDER := service];
      var cycle := CheckGraph(candidate);
      if cycle.Some? {
        return Err(GraphRejected);
      }
      if HasCode(rows, code) {
        return Err(DuplicateCode);
      }
      var before := rows;
      rows := rows[newId := service];
      if !env.auditWorks {
        rows := before;
        return Err(AuditFailed);
      }
      return Ok(newId);
    }

    method UpdateService(id: nat, r: Request, actor: Actor, env: Environment)
      returns (result: Result<nat, StoreError>)
      modifies this
      ensures rows == Apply(old(rows), Update(id, r), actor, env)
      ensures result == match UpdateError(old(rows), id, r, actor, env) case None => Ok(id) case Some(e) => Err(e)
      ensures if result.Ok? then Updated(old(rows), rows, id, r) else rows == old(rows)
    {
      if !ValidRequest(r) {
        return Err(InvalidRequest);
      }
      if id !in rows {
        return Err(ServiceNotFound);
      }
      var current := rows[id];
      if !MayModify(actor, current.ownerTeam) {
        return Err(Forbidden);
      }
      if actor.role == ServiceOwner && r.ownerTeam != actor.team {
        return Err(Forbidden);
      }
      var refs := ValidateReferences(id, r, env);
      if refs.Some? {
        return Err(refs.value);
      }
      var trust := SortedUnique(r.trustRefs);
      var edges := SortedUnique(r.dependencies);
      var after := current.(name := r.name, ownerTeam := r.ownerTeam, environment := r.environment,
                            chainId := r.chainId, trustRefs := trust, protocol := r.protocol,
                            criticality := r.criticality, dependencies := edges);
      var cycle := CheckGraph(rows[id := after]);
      if cycle.Some? {
        return Err(GraphRejected);
      }
      var before := rows;
      rows := rows[id := after];
      if !env.auditWorks {
        rows := before;
        return Err(AuditFailed);
      }
      return Ok(id);
    }

    method DeactivateService(id: nat, actor: Actor, env: Environment) returns (result: Result<nat, StoreError>)
      modifies this
      ensures rows == Apply(old(rows), Deactivate(id), actor, env)
      ensures result == match DeactivateError(old(rows), id, actor, env) case None => Ok(id) case Some(e) => Err(e)
      ensures if result.Ok? then Deactivated(old(rows), rows, id) else rows == old(rows)
    {
      if id !in rows {
        return Err(ServiceNotFound);
      }
      if !MayModify(actor, rows[id].ownerTeam) {
        return Err(Forbidden);
      }
      if rows[id].state != Snapshots.Active {
        return Err(AlreadyInactive);
      }
      var before := rows;
      rows := rows[id := rows[id].(state := Snapshots.Inactive)];
      if !env.auditWorks {
        rows := before;
        return Err(AuditFailed);
      }
      return Ok(id);
    }
  }

  /** `servicesContainCycle` on the rows of a candidate table. */
  method CheckGraph(rows: Rows) returns (err: Option<GraphError>)
    ensures err.None? <==> GraphAccepted(rows)
    ensures err.Some? ==> Justified(StoreGraph(rows), err.value)
  {
    var edges: Graph := map[];
    var remaining := rows.Keys;
    while remaining != {}
      invariant remaining <= rows.Keys
      invariant edges == map id | id in rows && id !in remaining :: CanonicalIds(rows[id].dependencies)
    {
      var id :| id in remaining;
      var ids := SortedUnique(rows[id].dependencies);
      edges := edges[id := ids];
      remaining := remaining - {id};
    }
    assert edges == StoreGraph(rows);
    err := ServicesContainCycle(edges);
  }
}
