# CertRollover, modelled and proved in Dafny

CertRollover assesses what a change of trust anchor does to services that depend on each other. This project models
its logic and proves properties of it:

- **The simulator.** Tables are frozen into a canonical snapshot (`Snapshots`, `Freezing`) and validated, including a
  three-colour search for cycles (`Validation`, `CycleSearch`). At up to six critical instants every active service is
  evaluated on its own (`Direct`) and then through its dependencies by a second search that produces a broken path and a
  nested reason (`Propagation`, `Simulation`). `Impact` and `Monotonicity` say what a result means, `Evidence` says it in
  terms of the columns of the frozen input alone, `Sampling` what it says about the instants between the sampled ones, and
  `ListingPages` what is lost when only one page of chains is frozen. `Render` holds the texts that are stored.
- **The service store.** `ServiceStore` holds the requests that write dependency edges, `GraphEdits` what edits do to the
  cycles of a graph, `StoreAnswers` what each request answers and writes, `StoreRuns` what every sequence of requests keeps,
  and `StoreRace` exactly when requests that are checked against the same table and then both written close a cycle.
- **The rollover-scenario protocol.** In `Protocol`, requests read a row, compute, and later commit a conditional update
  together with one audit record; their steps interleave freely. `ProtocolAnswers` says what each step
  answers and writes, `ProtocolLives` that every draft can reach both of its ends. `ProtocolInvariant`, `ProtocolHistory`,
  `ProtocolIdempotency` and `ProtocolAudit` hold over every run; `ProtocolRaces` says exactly when the rows in the log are
  current, and shows runs in which stronger expectations fail. `ScenarioEngine` plugs the real simulator in.
  `ScenarioService` is the service object itself, which carries the run it has been driven through, and
  `CreatedScenarios` follows a request from the tables to the stored results.
- **Smaller parts.** `RateLimiting` (the fixed-window limiter) and `ChainImport` (the window of an imported chain).

Code that changes state step by step is a class or a method with loops, proved equal to a specification function; what the
program promises is then proved of that function. Instants are integers, in nanoseconds since the zero time of the
program's clock. Identifiers are natural numbers; reasons and explanations are data, with their English texts in `Render`.

Some results differ from what the repository's documentation or messages suggest:

- The rate limiter admits up to `2 * limit - 1` requests in one minute, and no more (`SlidingWindowBound`,
  `SlidingWindowBoundReached`).
- "An identical frozen scenario already exists" is also reported when any scenario at all was never simulated, because the empty
  idempotency key is unique too (`CreateRefusedExactly`, `OneNeverSimulated`).
- The README of the program says that repeated requests with one key return the stored result. From the commit that
  binds the key until the scenario is simulated again under another key, every lookup of the key does
  (`IdempotentWhileBound`), but a request that had looked the key up before the binding can commit a second simulation:
  exactly if it has not ended since, the scenario is a draft again and the audit record is written
  (`SecondSimulationExactly`; `KeyCanSimulateTwice` is such a run).
- Audit records chain by state (`AuditExplainsState`), but the row recorded as "before" is the row that was changed if and
  only if its key and its replay mark, and for a replay also its state, are still those that were read
  (`RecordedRowsExactly`; `ReplayMakesRecordStale` and `RecordedRowsCanBeStale` are runs in which they are not).
- A nested reason names the services of the broken path in order, but an inactive dependency at its end without its code:
  "upstream dependency  is unreachable" (`ReportedReasonExactly`).
- A new service can never close a cycle, so the check made on creation never rejects (`CreationIsNeverCyclic`).
- The graph is checked before the transaction that writes the row is opened. Two requests that are checked against the same
  table and then both written leave a cycle if and only if they update different services and each names a dependency
  that already depends on the other service (`CheckedApartThenWritten`).
- A scenario can be explained as "all paths remain reachable before, during, and after" the overlap although a service is
  unreachable between two sampled instants (`SamplingCanMissAnOutage`). The explanation is true of the whole span, from a
  minute before the overlap to a minute after it, if and only if every active service is also reachable at the first
  instant after the overlap and whenever the window of some chain ends (`AllReachableTrueExactly`).
- Only the first 200 chains of the listing are frozen, and these are the ones that end first. What the truncation adds to a
  report is exactly every active service that depends on one whose configured chain was lost, at every critical
  instant (`LaterPagesAreLost`, `PageAddsExactly`).

## Model

| member | source | states |
|---|---|---|
| CycleSearch.Search.Visit | backend/internal/algorithm/simulator.go:325-340 | one visit of the search, on any graph: finished nodes stay finished, lie on no cycle and have finished successors; an error names a node on a cycle |
| CycleSearch.DetectCycle | backend/internal/algorithm/simulator.go:318-347 | for any graph, dangling targets included, and any map order: an error if and only if some service has a non-empty path to itself, and the reported service lies on such a cycle |
| CycleSearch.ServicesContainCycle | backend/internal/service/common.go:59-95 | accepts exactly the closed acyclic graphs; a reported cycle or missing dependency is real |
| Ordered.SortedUnique | backend/internal/algorithm/simulator.go:348-359 | the strictly ascending list of exactly the positive inputs |
| Ordered.SortedKeys | backend/internal/algorithm/simulator.go:368-375 | the keys of a map in ascending order, whatever the order of iteration |
| Snapshots.NewSnapshot | backend/internal/algorithm/simulator.go:91-101 | sorts the given arrays in place, loses and adds nothing, and normalises every identifier list |
| Snapshots.FreezingIsCanonical | backend/internal/algorithm/simulator.go:91-101 | permuting rows, and permuting or repeating identifiers in candidate, trust and dependency lists, gives the same snapshot |
| Snapshots.FreezingIsIdempotent | backend/internal/algorithm/simulator.go:91-101 | freezing a frozen snapshot again changes nothing |
| Validation.DetectCycle | backend/internal/algorithm/simulator.go:318-347 | the search run on the services of a snapshot, a repeated identifier keeping its last entry |
| Validation.ValidateSnapshot | backend/internal/algorithm/simulator.go:119-150 | accepts exactly the well-formed snapshots; an error is the first requirement, in order, that fails |
| Direct.CriticalTimes | backend/internal/algorithm/simulator.go:270-280 | returns the six instants in strictly ascending order |
| Direct.SortAndDeduplicate | backend/internal/algorithm/simulator.go:272-278 | the in-place de-duplication reads every slot before it is overwritten: strictly ascending, same elements |
| Direct.InstantsOfOverlap | backend/internal/algorithm/simulator.go:270-280 | with a non-empty overlap there are four to six instants and the midpoint is inside, even when the duration saturates |
| Direct.InstantsExactly | backend/internal/algorithm/simulator.go:270-280 | sampled are exactly a minute before the overlap, its start, its middle, its end, a minute after it, and the simulation time |
| Direct.EvaluateDirect | backend/internal/algorithm/simulator.go:201-240 | the loop over candidates computes the direct evidence of a service |
| Direct.DirectExact | backend/internal/algorithm/simulator.go:201-240 | directly reachable if and only if some considered chain for the configured leaf is usable; the least such chain is selected |
| Direct.DirectFailureExplained | backend/internal/algorithm/simulator.go:208-239 | a failure lists the refusal of every matching chain, in ascending order, and nothing else |
| Propagation.Resolver.ResolveService | backend/internal/algorithm/simulator.go:242-268 | the recursive search with its shared set of visited services computes the specified outcome, terminates, and restores the set |
| Propagation.ResolveExact | backend/internal/algorithm/simulator.go:242-268 | on every finite graph and for every set being visited: reachable if and only if everything in the closure is active, directly reachable, on no cycle and not being visited |
| Propagation.ResolveGivesWitness | backend/internal/algorithm/simulator.go:248-266 | a failure carries a path through healthy services, by first broken dependencies, to one that is not healthy, and the reason folded along it |
| Propagation.WitnessUnique | backend/internal/algorithm/simulator.go:259-266 | a service has at most one such path |
| Propagation.WitnessIsSimplePath | backend/internal/algorithm/simulator.go:247-266 | the path follows real dependency edges and visits no service twice |
| Propagation.WitnessTakesLeast | backend/internal/algorithm/simulator.go:259-266 | with ascending dependency lists each step goes to the least broken dependency |
| Simulation.ResolveServices | backend/internal/algorithm/simulator.go:177-193 | the second pass at one instant: items, affected services and broken paths in step |
| Simulation.SimulateInstant | backend/internal/algorithm/simulator.go:166-196 | both passes and the final sort give the evidence of an instant and its failures |
| Simulation.Explain | backend/internal/algorithm/simulator.go:293-314 | each clause is present if and only if a failure before, respectively after, the overlap is listed |
| Simulation.Simulate | backend/internal/algorithm/simulator.go:152-199 | succeeds exactly on well-formed snapshots and returns a function of the snapshot |
| Impact.AffectedExactly | backend/internal/algorithm/simulator.go:166-193 | a service and instant are reported if and only if the instant is critical, the service active and something in its closure not reachable |
| Impact.DependentsAreAffected | backend/internal/algorithm/simulator.go:259-266 | if a service is reported at an instant, so is every active service that transitively depends on it |
| Impact.PathsMatchAffected | backend/internal/algorithm/simulator.go:183-192 | affected services and broken paths run in parallel without repeats; instants, reasons and first codes agree |
| Impact.EvidenceMatchesAffected | backend/internal/algorithm/simulator.go:166-196 | evidence lists exactly the active services, ascending, at each instant; an entry is unreachable if and only if the pair is reported, and there are as many of these as reported pairs |
| Impact.ExplanationAccurate | backend/internal/algorithm/simulator.go:293-314 | the explanation tells exactly whether, how often, and in which phases, active services are unreachable |
| Impact.ReportedPathIsWitness | backend/internal/algorithm/simulator.go:181-192 | every reported path is the one witness of its service, with its folded reason; the cycle branch is never taken |
| Impact.ReportedPathTakesLeast | backend/internal/algorithm/simulator.go:259-266 | each step of a reported path goes to the least dependency that is not reachable |
| Impact.ReportedPathIsNamed | backend/internal/algorithm/simulator.go:185-191 | in a closed graph the reported codes name every service of the path, in order |
| Impact.AbsentMeansInactive | backend/internal/algorithm/simulator.go:243-246 | in a closed graph "absent or inactive" can only mean inactive |
| Evidence.ReachableExactly | backend/internal/algorithm/simulator.go:201-292 | a service is reachable if and only if everything it depends on is active, on no cycle, and has a chain for its leaf that is in use, valid, verified, and leads to a trusted anchor which is in force at that instant |
| Evidence.EntriesAreTruthful | backend/internal/algorithm/simulator.go:166-196 | every reported entry names its service by code, the least chain that serves it and the anchor of that chain even when the failure is upstream, none if no chain does, and says whether it is reachable |
| Evidence.EvidenceNamesAnchors | backend/internal/algorithm/simulator.go:281-292 | the evidence of an instant lists the old anchor before the overlap, the new one after it, both in between |
| Evidence.MissingTrustIsReported | backend/internal/algorithm/simulator.go:229-236 | an active service that lacks the new anchor is reported at every critical instant after the overlap, one that lacks the old anchor at every one before |
| Evidence.RemovalIsAlwaysSeen | backend/internal/algorithm/simulator.go:293-314 | such an instant is always sampled, and the explanation has the sentence for it |
| Evidence.EntriesGiveReasons | backend/internal/algorithm/simulator.go:208-239 | the reason of an unserved service is exact: its chain is missing, no chain has its leaf, or each such chain, in ascending order, with the first check it fails |
| Evidence.ReportMatchesEntry | backend/internal/algorithm/simulator.go:181-192 | a reported pair and its entry in the evidence give the same code and reason |
| Evidence.ReportedReasonExactly | backend/internal/algorithm/simulator.go:259-266 | in a closed graph the nested reason mentions the codes of the broken path after its first, and gives the reason of its last service; an inactive one is mentioned without its code |
| Monotonicity.SimulationIsMonotone | backend/internal/algorithm/simulator.go:152-268 | more trust, more candidates or chains, wider windows or fewer dependencies never add a pair to the report |
| Sampling.SamplingLifts | backend/internal/algorithm/simulator.go:201-292 | reachable at two instants of one anchor phase with the same chains throughout the closure implies reachable at every instant between |
| Sampling.ThroughoutPhaseExactly | backend/internal/algorithm/simulator.go:201-292 | within one anchor phase a service is reachable throughout if and only if it is at the beginning and whenever the window of a chain ends |
| Sampling.OverSpanExactly | backend/internal/algorithm/simulator.go:201-292 | the same over the whole span of a simulation, with the first instant after the overlap as one more deciding instant |
| Sampling.AllReachableTrueExactly | backend/internal/algorithm/simulator.go:293-296 | when the explanation says that all paths remain reachable, that is true of the whole span if and only if it is true at the deciding instants, which are not all sampled |
| SamplingGap.SamplingCanMissAnOutage | backend/internal/algorithm/simulator.go:270-280 | an accepted scenario in which it is not: nothing is reported, and a service is unreachable from the end of a window on, inside the overlap |
| Freezing.AllServices | backend/internal/service/common.go:124-135 | freezes every row of the service table once, with normalised lists |
| Freezing.BuildSnapshot | backend/internal/service/common.go:111-141 | assembles the snapshot from the rows and returns it if it is well-formed, otherwise the first requirement that fails |
| Freezing.Freeze | backend/internal/service/rollover_scenario_service.go:39-67 | a request is frozen exactly when it is valid, its references exist, the interval is not empty, the store's graph is acyclic and every candidate is among the first 200 chains; what is frozen is that request with those tables |
| Freezing.RequestAnswers | backend/internal/service/rollover_scenario_service.go:39-55 | the first objection to a request, and whether it is frozen, in terms of its columns and the listing |
| Freezing.FrozenColumns | backend/internal/service/common.go:111-141 | what is frozen holds, column by column, the request, the two anchors, the first 200 chains and every row of the service table with its own trust and dependency lists |
| Freezing.FrozenGraphIsStoreGraph | backend/internal/service/common.go:124-135 | the frozen dependency graph is the graph of the store |
| Freezing.FrozenOnce | backend/internal/service/rollover_scenario_service.go:62-67 | the same request and tables always freeze to the same snapshot, in whatever order rows and candidates come |
| Freezing.FrozenFromValidStore | backend/internal/service/rollover_scenario_service.go:56-62 | what is frozen from a valid store lists every service once and has the store's closed, acyclic graph |
| ListingPages.LaterPagesAreLost | backend/internal/repository/certificate_chain_repository.go:61-61 | a chain is lost exactly when its place in the listing is beyond 200, and no chain that is kept ends later than a lost one |
| ListingPages.PageAddsExactly | backend/internal/service/rollover_scenario_service.go:56-59 | compared with freezing all chains, the report gains exactly the active services with a lost chain in their closure, at every critical instant, and loses nothing |
| ServiceStore.CheckGraph | backend/internal/service/common.go:59-95 | the check of a candidate table accepts exactly closed acyclic graphs |
| ServiceStore.DependentServices.ValidateReferences | backend/internal/service/dependent_service_service.go:38-69 | reports the first missing chain, missing anchor, self-dependency or unknown dependency |
| ServiceStore.DependentServices.CreateService | backend/internal/service/dependent_service_service.go:70-103 | new table and answer of a creation, in the order of its checks, undone when the audit fails |
| ServiceStore.DependentServices.UpdateService | backend/internal/service/dependent_service_service.go:125-178 | new table and answer of an update |
| ServiceStore.DependentServices.DeactivateService | backend/internal/service/dependent_service_service.go:179-206 | new table and answer of a deactivation |
| StoreAnswers.ReferencesAnswer | backend/internal/service/dependent_service_service.go:38-69 | references are refused for a missing chain, then a missing anchor, then the least bad dependency: the service itself, or an unknown one |
| StoreAnswers.CreationAnswers | backend/internal/service/dependent_service_service.go:70-103 | a creation in a valid store is accepted exactly when it is well formed, the actor is entitled, its references exist, the code is unused and the audit record is written; otherwise refused for the first of these |
| StoreAnswers.UpdateAnswers | backend/internal/service/dependent_service_service.go:125-178 | the same for an update, which is refused for a cycle exactly when a requested dependency already depends on the service, and cannot hand a service owner's service to another team |
| StoreAnswers.DeactivationAnswers | backend/internal/service/dependent_service_service.go:179-206 | the same for a deactivation |
| StoreAnswers.RequestsWrite | backend/internal/service/dependent_service_service.go:70-206 | an accepted request changes one row: a creation or update stores each requested column, its lists without zeroes and repeats, and an update keeps code and state; a deactivation changes the state only |
| GraphEdits.RenamingNewNode | backend/internal/service/dependent_service_service.go:84-94 | in a closed graph the check does not depend on the identifier given to the new node |
| GraphEdits.RenamingNeedsClosedness | backend/internal/service/dependent_service_service.go:84-94 | without closedness it does |
| GraphEdits.ReplacingSuccessors | backend/internal/service/dependent_service_service.go:147-157 | replacing the edges of a node of an acyclic graph closes a cycle if and only if a new successor reaches the node |
| GraphEdits.TwoReplacements | backend/internal/service/dependent_service_service.go:147-169 | two replacements that are harmless alone close a cycle together if and only if a new successor of each node reaches the other |
| StoreRuns.PlaceholderCheckTransfers | backend/internal/service/dependent_service_service.go:84-94 | acceptance under the placeholder identifier is acceptance under the one the database assigns |
| StoreRuns.CreationIsNeverCyclic | backend/internal/service/dependent_service_service.go:84-89 | in a valid store the cycle check of a creation never rejects |
| StoreRuns.UpdateIsCyclicExactly | backend/internal/service/dependent_service_service.go:147-157 | an update is rejected for a cycle exactly when a requested dependency already depends on the service |
| StoreRuns.StepKeepsValid | backend/internal/service/dependent_service_service.go:70-206 | every request keeps the graph closed and acyclic and codes unique, and deletes no row |
| StoreRuns.RunKeepsValid | backend/internal/service/dependent_service_service.go:70-206 | so does every sequence of requests |
| StoreRace.CheckedApartThenWritten | backend/internal/service/dependent_service_service.go:84-169 | any two requests accepted against the same table and then both written leave the graph closed, and acyclic unless they are two updates that close a cycle together |
| StoreRace.WrittenInTurnIsRefusedExactly | backend/internal/service/dependent_service_service.go:147-157 | written one after the other, the second of two such updates is refused exactly when they would close a cycle together |
| StoreRace.RacingUpdatesCanCloseACycle | backend/internal/service/dependent_service_service.go:147-169 | the smallest such pair |
| ScenarioService.RolloverScenarios.CreateScenario | backend/internal/service/rollover_scenario_service.go:39-88 | freezes the request with the tables and takes the protocol's creation step with exactly that snapshot, or reports the first objection and changes nothing |
| ScenarioService.RolloverScenarios.InsertDraft | backend/internal/service/rollover_scenario_service.go:64-88 | inserts a draft under the two unique indexes with its audit record, or changes nothing |
| ScenarioService.RolloverScenarios.ValidIsInOrder | backend/internal/service/rollover_scenario_service.go:39-265 | whatever has been called, the object is in a state of a run, which satisfies the invariant |
| ScenarioService.RolloverScenarios.StartSimulate | backend/internal/service/rollover_scenario_service.go:90-104 | key, existence and ownership checks on the row as read |
| ScenarioService.RolloverScenarios.FindByKey | backend/internal/repository/rollover_scenario_repository.go:63-69 | finds a row with the key if and only if there is one |
| ScenarioService.RolloverScenarios.LookUpAndSimulate | backend/internal/service/rollover_scenario_service.go:105-128 | replays a bound key, refuses a key bound elsewhere, otherwise simulates the frozen text of the row as read |
| ScenarioService.RolloverScenarios.FinishSimulate | backend/internal/service/rollover_scenario_service.go:131-150 | conditional update and audit record together, or nothing |
| ScenarioService.RolloverScenarios.StartTransition | backend/internal/service/rollover_scenario_service.go:175-194 | request, ownership, transition and reviewer checks, in order |
| ScenarioService.RolloverScenarios.FinishTransition | backend/internal/service/rollover_scenario_service.go:195-225 | conditional update on the state as read and audit record together, or nothing |
| ScenarioService.RolloverScenarios.StartReplay | backend/internal/service/rollover_scenario_service.go:227-249 | simulates the frozen text again and compares |
| ScenarioService.RolloverScenarios.FinishReplay | backend/internal/service/rollover_scenario_service.go:250-264 | stores the verdict unconditionally with its audit record, or nothing |
| ScenarioService.RolloverScenarios.Record | backend/internal/repository/trust_anchor_repository.go:21-23 | a transaction whose audit record fails leaves no trace |
| ProtocolAnswers.CreationAnswers | backend/internal/service/rollover_scenario_service.go:64-88 | exactly when a creation is refused, and why |
| ProtocolAnswers.CreationWrites | backend/internal/service/rollover_scenario_service.go:75-81 | every column of the created draft and its record |
| ProtocolAnswers.SimulationAnswers | backend/internal/service/rollover_scenario_service.go:90-104 | exactly when a simulation goes on: the key has 1 to 128 characters, the row exists, the actor is administrator, PKI operator or creator |
| ProtocolAnswers.LookupAnswers | backend/internal/service/rollover_scenario_service.go:105-128 | what the lookup of a key answers in each of its cases |
| ProtocolAnswers.SimulationWrites | backend/internal/repository/rollover_scenario_repository.go:77-85 | exactly when a simulation commits, and that it writes state, key and results of one row, with one record signed by the actor |
| ProtocolAnswers.TransitionAnswers | backend/internal/service/rollover_scenario_service.go:175-194 | a transition goes on exactly when its request is proper, its row exists, the move is one of the six listed, and the actor manages the scenario or, for a verification, did not create it; otherwise the first failing guard answers |
| ProtocolAnswers.TransitionWrites | backend/internal/repository/rollover_scenario_repository.go:86-97 | exactly when a transition commits, and that it writes the state, on verification the verifier, on rollback the comment, and nothing else |
| ProtocolAnswers.ReplayAnswers | backend/internal/service/rollover_scenario_service.go:227-249 | exactly when a replay goes on, and that it compares all four stored texts |
| ProtocolAnswers.ReplayWrites | backend/internal/repository/rollover_scenario_repository.go:98-107 | a replay writes its verdict and nothing else |
| ProtocolLives.DraftsReachBothEnds | backend/internal/constants/scenario_state.go:18-31 | every draft can be brought to execution by those who manage it, verified there by anybody but its creator, and rolled back there by those who manage it |
| ProtocolInvariant.StepKeepsInv | backend/internal/service/rollover_scenario_service.go:39-265 | every step of every request keeps results, keys, reviewers, unique indexes and what requests in progress rely on |
| ProtocolInvariant.RunKeepsInv | backend/internal/service/rollover_scenario_service.go:39-265 | so does every interleaved run |
| ProtocolHistory.ReplayAgreesWithHistory | backend/internal/service/rollover_scenario_service.go:227-265 | in every reachable state a row beyond draft stores the simulation of its frozen input, a verified replay is not stale, and every replay in progress passes |
| ProtocolHistory.NoSimulationErrors | backend/internal/service/common.go:137-141 | what was accepted at creation never fails to decode, simulate or replay later |
| ProtocolHistory.StateMovesLegally | backend/internal/constants/scenario_state.go:18-31 | each step leaves a state as it is or moves it along a legal transition |
| ProtocolHistory.TerminalAndFrozen | backend/internal/service/rollover_scenario_service.go:175-221 | verified and rollback are terminal, and then only the replay mark can change; frozen input, hash and creator never change |
| ProtocolHistory.ReviewersAreSeparated | backend/internal/service/rollover_scenario_service.go:192-199 | a reviewer is recorded if and only if the state is verified, and is not the creator |
| ProtocolIdempotency.LookupWhileBound | backend/internal/service/rollover_scenario_service.go:105-112 | a bound key answers its scenario with the stored row and refuses every other one |
| ProtocolIdempotency.NoneGetsReady | backend/internal/service/rollover_scenario_service.go:105-128 | while a key is bound, no further request gets ready to commit it |
| ProtocolIdempotency.IdempotentWhileBound | backend/internal/service/rollover_scenario_service.go:90-150 | from binding to re-binding, every lookup of the key changes neither row nor log; its own scenario gets the stored row with the results of the binding simulation, any other a refusal |
| ProtocolIdempotency.SecondSimulationExactly | backend/internal/service/rollover_scenario_service.go:105-150 | in that time a request with the key commits if and only if it was ready to when the key was bound, for the same scenario, has not ended since, the scenario is a draft again and the audit record is written; it then only restores the state, and otherwise changes nothing |
| ProtocolHistory.CreateRefusedExactly | backend/internal/service/rollover_scenario_service.go:75-87 | a creation is refused as a duplicate exactly when the input exists already or some scenario was never simulated |
| ProtocolHistory.OneNeverSimulated | backend/internal/model/rollover_scenario.go:28 | at most one scenario at a time has never been simulated |
| ProtocolAudit.StepIsAtomic | backend/internal/repository/trust_anchor_repository.go:21-62 | a step writes nothing, or one row with one appended audit record of its new state |
| ProtocolAudit.AuditExplainsState | backend/internal/service/rollover_scenario_service.go:131-221 | the records of a scenario form a legal walk from its creation to its current state, with one more simulation than returns to draft unless it is a draft |
| ProtocolAudit.AuditExplainsSeeded | backend/internal/database/database.go:171-171 | the same from any initial state, such as the seeded simulated scenario |
| ProtocolAudit.VerificationFollowsSimulation | backend/internal/constants/scenario_state.go:18-31 | the last four records of a verified scenario are its simulation and the moves to ready, executing and verified |
| ProtocolAudit.VerificationIsOnRecord | backend/internal/service/rollover_scenario_service.go:192-221 | the records of a verified scenario begin with its creator's signature and end with its verifier's, and these differ |
| ProtocolRaces.SeenIsCurrentExactly | backend/internal/repository/rollover_scenario_repository.go:77-107 | of all columns only state, key and replay mark can move under a request that has read a row |
| ProtocolRaces.RecordedRowsExactly | backend/internal/service/rollover_scenario_service.go:131-264 | in every run, exactly when the rows that a commit records as before and after are the row it changes and the row it leaves |
| ProtocolRaces.ReplayMakesRecordStale | backend/internal/service/rollover_scenario_service.go:203-264 | a replay between read and commit of a transition makes the recorded row stale |
| ProtocolRaces.RecordedRowsCanBeStale | backend/internal/service/rollover_scenario_service.go:203-220 | so does a return to draft and a simulation under another key |
| ProtocolRaces.KeyCanSimulateTwice | backend/internal/service/rollover_scenario_service.go:105-150 | a run in which one key commits two simulations, as `SecondSimulationExactly` allows |
| ScenarioEngine.EngineIsCoherent | backend/internal/service/rollover_scenario_service.go:116-128 | with the real simulator, whatever is accepted when frozen can be simulated from its frozen text |
| ProtocolHistory.StartsSatisfyInv | backend/internal/database/database.go:171-171 | the empty database and the seeded one are possible starts of a run |
| ScenarioEngine.StoredResultsAreTheSimulation | backend/internal/service/rollover_scenario_service.go:39-265 | from creation on, a scenario beyond draft always stores the simulation of the snapshot it was created from |
| ScenarioEngine.ServiceRunKeeps | backend/internal/service/rollover_scenario_service.go:39-265 | every state of every run of the service satisfies the invariant, and stored texts decode to distinct services |
| CreatedScenarios.CreatedScenarioTellsOfItsTables | backend/internal/service/rollover_scenario_service.go:39-265 | from a request over a valid store to its row: whatever happens later, the row holds that input, column by column, and, beyond draft, its simulation; every entry of it is true of the rows, and every broken path names services of the store, in order, ending in an inactive one where it says absent or inactive |
| CreatedScenarios.SimulationTellsOfRows | backend/internal/service/common.go:111-141 | every entry of a created scenario's evidence is true of the store: it names the least of the first 200 chains that serves the row, by the row's own chain and trust list, and is reachable exactly when all that the row depends on is active and served |
| RateLimiting.RateLimiter.Admit | backend/internal/middleware/auth.go:113-127 | a request is counted whether or not it is admitted, and admitted while its bucket's count is within the limit |
| RateLimiting.BucketExactly | backend/internal/middleware/auth.go:115-120 | the bucket of a key starts with the request that opened it, the first or one a minute or more after the opener before, and counts every request of the key since |
| RateLimiting.AdmittedExactly | backend/internal/middleware/auth.go:115-127 | a request is admitted exactly when the requests of its key since that opener, itself included, are at most the limit |
| RateLimiting.BucketAdmitsExactly | backend/internal/middleware/auth.go:115-121 | a bucket admits the first `limit` requests it counts and no others |
| RateLimiting.KeysAreIndependent | backend/internal/middleware/auth.go:109-120 | requests of other keys change neither the bucket nor the admissions of a key |
| RateLimiting.SlidingWindowBound | backend/internal/middleware/auth.go:94-129 | with a clock that does not go back, at most 2 * limit - 1 admissions per key in any half-open minute |
| RateLimiting.SlidingWindowBoundReached | backend/internal/middleware/auth.go:94-129 | the bound is reached for every positive limit |
| ChainImport.ImportWindow | backend/internal/service/certificate_chain_service.go:49-58 | the stored window holds exactly the instants at which the anchor and every certificate are valid |
| ChainImport.ReachableMeansCertificatesValid | backend/internal/algorithm/simulator.go:218-229 | a service reported reachable uses, with everything it depends on, chains whose anchor and certificates are all valid at that instant |
| ChainImport.ReportedReachableMeansValid | backend/internal/algorithm/simulator.go:218-229 | if an entry is reported reachable, everything its service depends on has a reachable entry that names a chain whose anchor and certificates are all valid then |
| Render.DecimalReadsBack | backend/internal/algorithm/simulator.go:306-306 | numbers are written in decimal digits without leading zero and can be read back |
| Render.ExplanationSentences | backend/internal/algorithm/simulator.go:293-314 | the text of an explanation has its two counts, and the sentence about each phase exactly when its clause is set |
| Render.ExplanationReadsBack | backend/internal/algorithm/simulator.go:293-314 | different explanations have different texts |

## Left out

- ServiceStore.DependentServices.CreateService: one atomic step, as are the other store requests; the program checks the graph before it opens the transaction, and `StoreRace` says exactly what two interleaved requests can do then.
- ServiceStore.DependentServices.UpdateService: one atomic step likewise.
- ScenarioService.RolloverScenarios.StartSimulate: the key is taken as already trimmed, and its length in characters rather than bytes; so is the comment of a transition.
- RateLimiting.RateLimiter.Admit: calls follow one another, as the mutex makes them; how a key is formed from the route, the user or the address is not modelled.
- ChainImport.ImportWindow: the periods of anchor and bundle are inputs; parsing and signature checks of certificates are not modelled.
- `sort.Slice` belongs to the Go library; an insertion sort stands in for it, and nothing is assumed about the order of equal keys.
- Instants are unbounded integers: subtraction saturates as in the program, addition is not cut off at the end of the representable range.
- JSON and SHA-256: encoding is any function that round-trips snapshots, the hash any function of the text; result encodings are any functions.
- The English texts of reasons in `Render` are written out but nothing is proved about them; the encodings of results work on the reasons as data.
- Anchor and chain rows are taken in the shape in which they are frozen; reading the validation flag from its stored text, and the revocation mark from its date, is not modelled.
- The trust tables are read as they are at one moment when a scenario is frozen; reading them across concurrent writes is not modelled.
- Audit records hold scenario, action, actor and rows before and after; request identifiers, timing, redaction and path summaries are not modelled, nor the audit log of the service store beyond its success or failure.
- Reads and commits are atomic steps; isolation levels inside the database are not modelled.
- Role permissions at the routes, authentication, pagination, listing, comparison of scenarios and trust-anchor life cycle.
- The compare-and-set of certificate-chain states repeats the pattern proved for scenarios.
- The user interface, configuration, deployment and seed data, beyond the seeded scenario as a possible start of a run.
