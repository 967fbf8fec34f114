/**
 The moves of a run described from the outside: which moves belong to which event, one by one, and what the events
 of a run come to.  The plans of Scripts are proved to be such runs.
 */
module Turns {
  import opened Words
  import opened Events
  import opened SimulatorRuns
  import RunHistories
  import opened Schedulers
  import opened Scripts

  // ---------- one turn ----------

  predicate OnlyDrains(moves: seq<Move>)
  {
    forall i :: 0 <= i < |moves| ==> moves[i] == Take(Swap) || moves[i] == Take(DrainOne)
  }

  /** From a place on, the moves are the actions of a handler. */
  predicate ActsAt(moves: seq<Move>, from: nat, handler: seq<Action>)
  {
    && from + |handler| <= |moves|
    && forall i :: 0 <= i < |handler| ==>
         match handler[i]
         case Do(call) => moves[from + i] == Take(call)
         case ChangeScheduler(kind) => moves[from + i] == Switch(kind)
  }

  predicate HandsOverAt(moves: seq<Move>, from: nat, others: seq<Pending>)
  {
    && from + |others| <= |moves|
    && forall i :: 0 <= i < |others| ==>
         moves[from + i] == Take(Step.HandOver(others[i].context, others[i].delay, others[i].impl))
  }

  /**
   An event is taken off the queue, its handler acts unless the event is marked as cancelled, the other threads hand
   over, and then there is nothing but the drain.
   */
  predicate IsTurn(u: State, turn: Turn, moves: seq<Move>)
  {
    && u.queue != [] && moves != [] && moves[0] == Take(ProcessOne)
    && var acting := if u.queue[0].impl in u.cancelled then 0 else |turn.handler|;
       && (acting > 0 ==> ActsAt(moves, 1, turn.handler))
       && HandsOverAt(moves, 1 + acting, turn.others)
       && OnlyDrains(moves[1 + acting + |turn.others|..])
  }

  /** A destroy event is taken, and its handler acts unless the event is marked as cancelled. */
  predicate IsDestroyTurn(u: State, handler: seq<Action>, moves: seq<Move>)
  {
    && u.destroyEvents != [] && moves != [] && moves[0] == Take(DestroyOne)
    && if u.destroyEvents[0].impl in u.cancelled then |moves| == 1
       else |moves| == 1 + |handler| && ActsAt(moves, 1, handler)
  }

  lemma {:induction false} DrainsOnly(n: nat)
    ensures OnlyDrains(Drains(n))
  {
    if n > 0 { DrainsOnly(n - 1); }
  }

  lemma DrainPlanOnly(s: State)
    ensures OnlyDrains(DrainPlan(s))
  {
    DrainsOnly(|s.handOver|);
  }

  lemma PlanIsTurn(s: State, turn: Turn)
    requires s.queue != []
    ensures IsTurn(s, turn, TurnPlan(s, turn))
  {
    var front, rest := TurnFront(s, turn), TurnRest(s, turn);
    if Legal(s, StepsOf(front)) { DrainPlanOnly(After(s, StepsOf(front))); }
    assert OnlyDrains(rest);
    hide IsTurn, Legal, After, StepsOf, DrainPlan, OnlyDrains, TurnRest;
    assert (front + rest)[|front|..] == rest;
    FrontIsTurn(s, turn, rest);
  }

  lemma FrontIsTurn(s: State, turn: Turn, rest: seq<Move>)
    requires s.queue != [] && OnlyDrains((TurnFront(s, turn) + rest)[|TurnFront(s, turn)|..])
    ensures IsTurn(s, turn, TurnFront(s, turn) + rest)
  {
    hide OnlyDrains;
    var moves := TurnFront(s, turn) + rest;
    if s.queue[0].impl !in s.cancelled { assert ActsAt(moves, 1, turn.handler); }
  }

  /** The turn of a marked event is a turn without a handler. */
  lemma MarkedTurn(s: State, turn: Turn)
    requires s.queue != [] && s.queue[0].impl in s.cancelled
    ensures TurnPlan(s, turn) == TurnPlan(s, Turn([], turn.others))
  {
    assert TurnFront(s, turn) == TurnFront(s, Turn([], turn.others));
  }

  lemma PlanIsDestroyTurn(s: State, handler: seq<Action>)
    requires s.destroyEvents != []
    ensures IsDestroyTurn(s, handler, DestroyFront(s, handler))
  {
  }

  // ---------- turn by turn ----------

  function Joined(parts: seq<seq<Move>>): (moves: seq<Move>)
  {
    if parts == [] then [] else parts[0] + Joined(parts[1..])
  }

  /** Turn k of the script; once it is over, the events have no handlers. */
  function NthTurn(script: seq<Turn>, k: nat): (turn: Turn)
  {
    if k < |script| then script[k] else Turn([], [])
  }

  function NthHandler(handlers: seq<seq<Action>>, k: nat): (handler: seq<Action>)
  {
    if k < |handlers| then handlers[k] else []
  }

  /** Part k is the turn of the first event of its time, while no handler has stopped the run. */
  ghost predicate InTurns(s: State, script: seq<Turn>, parts: seq<seq<Move>>)
  {
    forall k :: 0 <= k < |parts| ==>
      var done := StepsOf(Joined(parts[..k]));
      Legal(s, done) && !After(s, done).stop && IsTurn(After(s, done), NthTurn(script, k), parts[k])
  }

  ghost predicate InDestroyTurns(s: State, handlers: seq<seq<Action>>, parts: seq<seq<Move>>)
  {
    forall k :: 0 <= k < |parts| ==>
      var done := StepsOf(Joined(parts[..k]));
      Legal(s, done) && IsDestroyTurn(After(s, done), NthHandler(handlers, k), parts[k])
  }

  lemma JoinedFirst(first: seq<Move>, later: seq<seq<Move>>, k: nat)
    requires 0 < k <= |later| + 1
    ensures Joined(([first] + later)[..k]) == first + Joined(later[..k - 1])
  {
    assert ([first] + later)[..k][1..] == later[..k - 1];
  }

  /** The state before a later part, from the state after the first one. */
  lemma LaterPart(s: State, first: seq<Move>, later: seq<seq<Move>>, k: nat)
    requires 0 < k <= |later| + 1 && Legal(s, StepsOf(first))
    requires Legal(After(s, StepsOf(first)), StepsOf(Joined(later[..k - 1])))
    ensures var done := StepsOf(Joined(([first] + later)[..k]));
      Legal(s, done) && After(s, done) == After(After(s, StepsOf(first)), StepsOf(Joined(later[..k - 1])))
  {
    JoinedFirst(first, later, k);
    StepsOfConcat(first, Joined(later[..k - 1]));
    AfterAppend(s, StepsOf(first), StepsOf(Joined(later[..k - 1])));
  }

  lemma FirstPart(s: State, first: seq<Move>, later: seq<seq<Move>>)
    ensures Legal(s, StepsOf(Joined(([first] + later)[..0]))) && After(s, StepsOf(Joined(([first] + later)[..0]))) == s
    ensures Joined([first]) == first
  {
    assert ([first] + later)[..0] == [];
    assert first + Joined([]) == first;
  }

  /** The plan of a script, cut into its turns. */
  lemma {:induction false} ScriptInTurns(s: State, script: seq<Turn>) returns (parts: seq<seq<Move>>)
    ensures ScriptPlan(s, script) == Joined(parts) && InTurns(s, script, parts)
    decreases |script|, |s.queue| + |s.handOver|
  {
    hide TurnPlan, StepsOf, IsTurn, Legal, After;
    if s.queue == [] || s.stop {
      parts := [];
    } else {
      var turn := FirstTurn(script);
      var plan := TurnPlan(s, turn);
      PlanIsTurn(s, turn);
      NextTurn(s, script);
      var later := [];
      if Legal(s, StepsOf(plan)) {
        TurnShrinks(s, script);
        later := ScriptInTurns(After(s, StepsOf(plan)), LaterTurns(script));
      } else {
        assert plan + ScriptRest(s, script) == plan;
      }
      parts := [plan] + later;
      FirstPart(s, plan, later);
      JoinedFirst(plan, later, |parts|);
      assert parts[..|parts|] == parts && later[..|later|] == later;
      forall k | 0 <= k < |parts|
        ensures var done := StepsOf(Joined(parts[..k]));
          Legal(s, done) && !After(s, done).stop && IsTurn(After(s, done), NthTurn(script, k), parts[k])
      {
        if k > 0 {
          LaterPart(s, plan, later, k);
          assert parts[k] == later[k - 1] && NthTurn(script, k) == NthTurn(LaterTurns(script), k - 1);
        }
      }
    }
  }

  /** A run drains, clears the stop flag and then goes on turn by turn; its moves are all of these or end among them. */
  ghost predicate RunsInTurns(s: State, script: seq<Turn>, trace: seq<Move>, ended: bool)
  {
    exists drain, parts ::
      var start := drain + [Take(Step.ClearStop)];
      && OnlyDrains(drain) && trace <= start + Joined(parts) && (ended ==> trace == start + Joined(parts))
      && (parts != [] ==> Legal(s, StepsOf(start)) && InTurns(After(s, StepsOf(start)), script, parts))
  }

  ghost predicate DestroysInTurns(s: State, handlers: seq<seq<Action>>, trace: seq<Move>, ended: bool)
  {
    exists parts :: InDestroyTurns(s, handlers, parts) && trace <= Joined(parts) && (ended ==> trace == Joined(parts))
  }

  lemma RunPlanInTurns(s: State, script: seq<Turn>, from: Kind, trace: seq<Move>, outcome: Outcome, t: State, to: Kind)
    requires Plays(s, from, RunPlan(s, script), trace, outcome, t, to)
    ensures RunsInTurns(s, script, trace, outcome.Done?)
  {
    FollowsPlan(s, from, RunPlan(s, script), trace, outcome, t, to);
    hide Plays, InTurns, StepsOf, Legal, After, DrainPlan;
    var start := StartPlan(s);
    DrainPlanOnly(s);
    var parts := [];
    if Legal(s, StepsOf(start)) { parts := ScriptInTurns(After(s, StepsOf(start)), script); }
    assert RunPlan(s, script) == start + Joined(parts);
  }

  lemma FollowsPlan(s: State, from: Kind, plan: seq<Move>, trace: seq<Move>, outcome: Outcome, t: State, to: Kind)
    requires Plays(s, from, plan, trace, outcome, t, to)
    ensures trace <= plan && (outcome.Done? ==> trace == plan)
  {
  }

  lemma {:induction false} DestroyPlanInTurns(s: State, handlers: seq<seq<Action>>) returns (parts: seq<seq<Move>>)
    ensures DestroyPlan(s, handlers) == Joined(parts) && InDestroyTurns(s, handlers, parts)
    decreases |handlers|, |s.destroyEvents|
  {
    hide DestroyFront, StepsOf, IsDestroyTurn, Legal, After;
    if s.destroyEvents == [] {
      parts := [];
    } else {
      var handler := FirstHandler(handlers);
      var plan := DestroyFront(s, handler);
      PlanIsDestroyTurn(s, handler);
      NextDestroy(s, handlers);
      var later := [];
      if Legal(s, StepsOf(plan)) {
        later := DestroyPlanInTurns(After(s, StepsOf(plan)), LaterHandlers(handlers));
      } else {
        assert plan + DestroyRest(s, handlers) == plan;
      }
      parts := [plan] + later;
      FirstPart(s, plan, later);
      JoinedFirst(plan, later, |parts|);
      assert parts[..|parts|] == parts && later[..|later|] == later;
      forall k | 0 <= k < |parts|
        ensures var done := StepsOf(Joined(parts[..k]));
          Legal(s, done) && IsDestroyTurn(After(s, done), NthHandler(handlers, k), parts[k])
      {
        if k > 0 {
          LaterPart(s, plan, later, k);
          assert parts[k] == later[k - 1] && NthHandler(handlers, k) == NthHandler(LaterHandlers(handlers), k - 1);
        }
      }
    }
  }

  lemma DestroysPlanInTurns(s: State, handlers: seq<seq<Action>>, from: Kind, trace: seq<Move>, outcome: Outcome, t: State, to: Kind)
    requires Plays(s, from, DestroyPlan(s, handlers), trace, outcome, t, to)
    ensures DestroysInTurns(s, handlers, trace, outcome.Done?)
  {
    FollowsPlan(s, from, DestroyPlan(s, handlers), trace, outcome, t, to);
    hide Plays, InDestroyTurns, DestroyPlan;
    var parts := DestroyPlanInTurns(s, handlers);
    assert InDestroyTurns(s, handlers, parts) && DestroyPlan(s, handlers) == Joined(parts);
  }

  /** The turn of an event that was marked at any time before it has no move of a handler. */
  lemma MarkedNeverActs(s: State, script: seq<Turn>, parts: seq<seq<Move>>, k: nat)
    requires Invariant(s) && InTurns(s, script, parts) && k < |parts|
    ensures var done := StepsOf(Joined(parts[..k]));
      var u, part, others := After(s, done), parts[k], NthTurn(script, k).others;
      u.queue != [] && (u.queue[0].impl in s.cancelled ==>
        part != [] && part[0] == Take(ProcessOne) && HandsOverAt(part, 1, others) && OnlyDrains(part[1 + |others|..]))
  {
    hide Invariant;
    var done := StepsOf(Joined(parts[..k]));
    RunHistories.RunGrows(s, done);
    RunHistories.MarksStay(s, After(s, done));
  }

  // ---------- what a run comes to ----------

  lemma {:induction false} NoStopInSteps(moves: seq<Move>)
    requires Take(Step.Stop) !in moves
    ensures Step.Stop !in StepsOf(moves)
  {
    if moves != [] { NoStopInSteps(moves[..|moves| - 1]); }
  }

  /** Only the call of Stop sets the flag. */
  lemma {:induction false} StopStays(s: State, steps: seq<Step>)
    requires Legal(s, steps) && !s.stop && Step.Stop !in steps
    ensures !After(s, steps).stop
    decreases |steps|
  {
    if steps != [] {
      OnlyStopStops(s, steps[0]);
      assert forall step :: step in steps[1..] ==> step in steps;
      StopStays(Apply(s, steps[0]), steps[1..]);
    }
  }

  lemma OnlyStopStops(s: State, step: Step)
    requires Enabled(s, step) && !s.stop && step != Step.Stop
    ensures !Apply(s, step).stop
  {
  }

  /** Whatever the flag was before, a run without a call of Stop does not end by it. */
  lemma RunIsNotStopped(s: State, script: seq<Turn>, from: Kind, trace: seq<Move>, t: State, to: Kind)
    requires Plays(s, from, RunPlan(s, script), trace, Done, t, to) && Take(Step.Stop) !in trace
    ensures !t.stop
  {
    FollowsPlan(s, from, RunPlan(s, script), trace, Done, t, to);
    LeadsTo(s, from, RunPlan(s, script), trace, Done, t, to);
    OneMove(Take(Step.ClearStop), from);
    hide Plays, RunRest, RunPlan, DrainPlan, StepsOf, Legal, After;
    var drain, last, rest := DrainPlan(s), [Take(Step.ClearStop)], RunRest(s, script);
    RunPlanIs(s, script);
    assert forall m :: m in rest ==> m in trace;
    NoStopInSteps(rest);
    StepsOfConcat(drain, last + rest);
    StepsOfConcat(last, rest);
    ClearedThen(s, StepsOf(drain), StepsOf(rest));
  }

  lemma RunPlanIs(s: State, script: seq<Turn>)
    ensures RunPlan(s, script) == DrainPlan(s) + ([Take(Step.ClearStop)] + RunRest(s, script))
  {
    hide DrainPlan, RunRest;
  }

  lemma ClearedThen(s: State, before: seq<Step>, rest: seq<Step>)
    requires Legal(s, before + ([Step.ClearStop] + rest)) && Step.Stop !in rest
    ensures !After(s, before + ([Step.ClearStop] + rest)).stop
  {
    LegalSplit(s, before, [Step.ClearStop] + rest);
    AfterAppend(s, before, [Step.ClearStop] + rest);
    var u := After(s, before);
    assert ([Step.ClearStop] + rest)[1..] == rest;
    StopStays(Apply(u, Step.ClearStop), rest);
  }

  /** With nothing handed over, idle turns execute all that is in the queue, in its order. */
  lemma {:induction false} IdleTurnsExecuteAll(s: State)
    requires QueueAhead(s) && s.drained == [] && s.handOverEmpty && !s.stop
    ensures Legal(s, StepsOf(ScriptPlan(s, [])))
    ensures var t := After(s, StepsOf(ScriptPlan(s, []))); t.queue == [] && t.executed == s.executed + s.queue
    decreases |s.queue|
  {
    hide ScriptPlan, StepsOf, Legal, After, QueueAhead;
    IdlePlanIsLegal(s);
    if s.queue == [] {
      NothingPlanned(s);
      assert s.executed + s.queue == s.executed;
    } else {
      var u := IdleTurn(s);
      IdleTurnsExecuteAll(u);
      assert s.executed + s.queue == u.executed + u.queue;
    }
  }

  lemma NothingPlanned(s: State)
    requires s.queue == []
    ensures Legal(s, StepsOf(ScriptPlan(s, []))) && After(s, StepsOf(ScriptPlan(s, []))) == s
  {
  }

  lemma IdleTurn(s: State) returns (u: State)
    requires QueueAhead(s) && s.drained == [] && s.handOverEmpty && !s.stop && s.queue != []
    requires Legal(s, StepsOf(ScriptPlan(s, [])))
    ensures QueueAhead(u) && u.drained == [] && u.handOverEmpty && !u.stop
    ensures u.queue == s.queue[1..] && u.executed == s.executed + [s.queue[0]]
    ensures Legal(u, StepsOf(ScriptPlan(u, []))) && After(s, StepsOf(ScriptPlan(s, []))) == After(u, StepsOf(ScriptPlan(u, [])))
  {
    u := Apply(s, ProcessOne);
    ProcessKeepsAhead(s);
    var plan, rest := TurnPlan(s, IDLE), ScriptPlan(u, []);
    assert TurnFront(s, IDLE) == [Take(ProcessOne)];
    OneMove(Take(ProcessOne), ListKind);
    OneStep(s, ProcessOne);
    assert plan == [Take(ProcessOne)];
    assert ScriptPlan(s, []) == plan + rest;
    StepsOfConcat(plan, rest);
    LegalSplit(s, [ProcessOne], StepsOf(rest));
    AfterAppend(s, [ProcessOne], StepsOf(rest));
  }

  lemma IdleRunExecutesAll(s: State, from: Kind, trace: seq<Move>, t: State, to: Kind)
    requires Reached(s) && s.drained == [] && s.handOverEmpty && Plays(s, from, RunPlan(s, []), trace, Done, t, to)
    ensures t.queue == [] && t.executed == s.executed + s.queue
  {
    AllPlayed(s, from, RunPlan(s, []), trace, t, to);
    LeadsTo(s, from, RunPlan(s, []), trace, Done, t, to);
    hide Plays, ScriptPlan, Reached, StepsOf, Legal, After, QueueAhead;
    var u := IdleStart(s);
    IdleTurnsExecuteAll(u);
    AfterAppend(s, [Step.ClearStop], StepsOf(ScriptPlan(u, [])));
  }

  lemma IdleStart(s: State) returns (u: State)
    requires Reached(s) && s.drained == [] && s.handOverEmpty
    ensures QueueAhead(u) && u.drained == [] && u.handOverEmpty && !u.stop && u.queue == s.queue && u.executed == s.executed
    ensures Legal(s, [Step.ClearStop]) && u == After(s, [Step.ClearStop])
    ensures StepsOf(RunPlan(s, [])) == [Step.ClearStop] + StepsOf(ScriptPlan(u, []))
  {
    ReachedInvariant(s);
    KeepsQueue(s, Step.ClearStop);
    OneMove(Take(Step.ClearStop), ListKind);
    OneStep(s, Step.ClearStop);
    u := Apply(s, Step.ClearStop);
    hide ScriptPlan, Invariant, QueueAhead, Legal, After;
    assert StartPlan(s) == [Take(Step.ClearStop)];
    StepsOfConcat(StartPlan(s), ScriptPlan(u, []));
  }
}
