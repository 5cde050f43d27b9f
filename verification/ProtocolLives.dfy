/** The guards do not shut anything out: every draft can be carried to each of its two ends. */
module ProtocolLives {
  import opened Wrappers
  import opened Actors
  import opened Protocol
  import opened ProtocolInvariant
  import opened ProtocolAnswers
  import opened ProtocolRaces

  function Simulating(id: nat, key: string, actor: Actor): seq<Event> {
    [BeginSimulate(1, id, key, actor), LookupKey(1), CommitSimulate(1, true)]
  }

  function Moving(id: nat, to: ScenarioState, comment: string, actor: Actor): seq<Event> {
    [BeginTransition(1, id, to, comment, actor), CommitTransition(1, true)]
  }

  lemma OneSimulation(engine: Engine, sys: System, id: nat, key: string, actor: Actor) returns (s: seq<System>)
    requires Idle(sys) && id in sys.db.rows && sys.db.rows[id].state.Draft? && Manages(actor, sys.db.rows[id])
    requires engine.run(sys.db.rows[id].input).Ok? && 0 < |key| <= 128 && Unused(sys, key)
    ensures IsRun(engine, s, Simulating(id, key, actor)) && s[0] == sys && Idle(s[3])
    ensures var row := sys.db.rows[id];
      s[3].db.rows == sys.db.rows[id := row.(state := Simulated, results := engine.run(row.input).value, key := key)]
  {
    var row, events := sys.db.rows[id], Simulating(id, key, actor);
    s := Steps(engine, sys, events);
    assert s[1] == System(sys.db, map[1 := SimulateRead(id, key, actor, row)]);
    assert s[2] == System(sys.db, map[1 := SimulateReady(id, key, actor, row, engine.run(row.input).value)]);
    assert s[3] == Step(engine, s[2], events[2]).0;
  }

  lemma OneMove(engine: Engine, sys: System, id: nat, to: ScenarioState, comment: string, actor: Actor)
    returns (s: seq<System>)
    requires Idle(sys) && id in sys.db.rows && |comment| <= 1000
    requires ListedMove(sys.db.rows[id].state, to) && MayMove(actor, sys.db.rows[id], to)
    ensures IsRun(engine, s, Moving(id, to, comment, actor)) && s[0] == sys && Idle(s[2])
    ensures var row := sys.db.rows[id];
      s[2].db.rows == sys.db.rows[id := row.(
        state := to,
        verifiedBy := if to.Verified? then Some(actor.userId) else row.verifiedBy,
        rollbackRecord := if to.Rollback? then comment else row.rollbackRecord)]
  {
    var row, events := sys.db.rows[id], Moving(id, to, comment, actor);
    s := Steps(engine, sys, events);
    TransitionAnswers(engine, sys, events[0]);
    assert s[1] == System(sys.db, map[1 := TransitionReady(id, to, comment, actor, row)]);
    assert s[2] == Step(engine, s[1], events[1]).0;
  }

  function Executed(id: nat, key: string, actor: Actor): seq<Event> {
    Simulating(id, key, actor) + (Moving(id, Ready, "", actor) + Moving(id, Executing, "", actor))
  }

  lemma UpToExecution(engine: Engine, sys: System, id: nat, key: string, actor: Actor) returns (s: seq<System>)
    requires Idle(sys) && id in sys.db.rows && sys.db.rows[id].state.Draft? && Manages(actor, sys.db.rows[id])
    requires engine.run(sys.db.rows[id].input).Ok? && 0 < |key| <= 128 && Unused(sys, key)
    ensures IsRun(engine, s, Executed(id, key, actor)) && s[0] == sys && Idle(s[7])
    ensures var row := sys.db.rows[id];
      s[7].db.rows == sys.db.rows[id := row.(state := Executing, results := engine.run(row.input).value, key := key)]
  {
    var simulated := OneSimulation(engine, sys, id, key, actor);
    var ready := OneMove(engine, simulated[3], id, Ready, "", actor);
    var executing := OneMove(engine, ready[2], id, Executing, "", actor);
    JoinedRun(engine, ready, Moving(id, Ready, "", actor), executing, Moving(id, Executing, "", actor));
    var moved := ready + executing[1..];
    JoinedRun(engine, simulated, Simulating(id, key, actor), moved,
              Moving(id, Ready, "", actor) + Moving(id, Executing, "", actor));
    s := simulated + moved[1..];
    assert s[7] == executing[2];
  }

  /** Whoever manages a draft can bring it to execution under any unused key. From there anybody but its creator can
      verify it, and anybody who manages it can roll it back; the row then names the verifier, or keeps the comment. */
  lemma DraftsReachBothEnds(engine: Engine, sys: System, id: nat, key: string, manager: Actor,
                            to: ScenarioState, comment: string, last: Actor)
    returns (s: seq<System>)
    requires engine.Coherent() && Inv(engine, sys) && Idle(sys)
    requires id in sys.db.rows && sys.db.rows[id].state.Draft? && Manages(manager, sys.db.rows[id])
    requires 0 < |key| <= 128 && Unused(sys, key) && |comment| <= 1000
    requires (to.Verified? && last.userId != sys.db.rows[id].createdBy)
             || (to.Rollback? && Manages(last, sys.db.rows[id]))
    ensures IsRun(engine, s, Executed(id, key, manager) + Moving(id, to, comment, last)) && s[0] == sys && |s| == 10
    ensures id in s[9].db.rows && s[9].db.rows[id].state == to && s[9].db.rows[id].key == key
    ensures engine.run(sys.db.rows[id].input) == Ok(s[9].db.rows[id].results)
    ensures to.Verified? ==> s[9].db.rows[id].verifiedBy == Some(last.userId) && s[9].db.rows[id].rollbackRecord == ""
    ensures to.Rollback? ==> s[9].db.rows[id].verifiedBy == None && s[9].db.rows[id].rollbackRecord == comment
  {
    assert RowOk(engine, sys.db.rows[id]);
    var executed := UpToExecution(engine, sys, id, key, manager);
    var ended := OneMove(engine, executed[7], id, to, comment, last);
    JoinedRun(engine, executed, Executed(id, key, manager), ended, Moving(id, to, comment, last));
    s := executed + ended[1..];
    assert s[9] == ended[2];
  }
}
