/**
 When a run cannot get stuck: with unique ids and time enough for all the calls of its script, every call can be made.
 */
module Budgets {
  import opened Words
  import opened Events
  import opened SimulatorRuns
  import opened Schedulers
  import opened Scripts

  /** A call with an event and a delay of at most d that takes no event out of the queue. */
  predicate Ordinary(step: Step, d: nat)
  {
    match step
    case Schedule(delay, impl) => impl != 0 && 0 <= delay <= d
    case ScheduleNow(impl) => impl != 0
    case ScheduleWithContext(_, delay, impl) => impl != 0 && 0 <= delay <= d
    case HandOver(_, delay, impl) => impl != 0 && 0 <= delay <= d
    case Remove(id) => id.uid == DESTROY_UID
    case _ => IsCall(step)
  }

  predicate OrdinaryMoves(moves: seq<Move>, d: nat)
  {
    forall i :: 0 <= i < |moves| && moves[i].Take? ==> Ordinary(moves[i].step, d)
  }

  predicate OrdinaryScript(script: seq<Turn>, d: nat)
  {
    forall i :: 0 <= i < |script| ==>
      OrdinaryMoves(MovesOf(script[i].handler), d) && OrdinaryMoves(HandOversOf(script[i].others), d)
  }

  function CallsIn(script: seq<Turn>): (n: nat)
  {
    if script == [] then 0 else |script[0].handler| + |script[0].others| + CallsIn(script[1..])
  }

  /** Unique ids and time are left for n more calls, besides what is on its way into the queue. */
  predicate Room(s: State, n: nat, d: nat)
  {
    RoomFor(s, |s.drained| + |s.handOver| + n, d)
  }

  predicate RoomFor(s: State, k: nat, d: nat)
  {
    && s.uid + k < B32 && s.currentTs + k * d <= MAX_TIME && DueBy(s.queue, MAX_TIME + 1 - k * d)
    && (forall i :: 0 <= i < |s.drained| ==> s.drained[i].delay <= d)
    && (forall i :: 0 <= i < |s.handOver| ==> s.handOver[i].delay <= d)
  }

  lemma OneLess(k: nat, d: nat)
    requires k > 0
    ensures (k - 1) * d == k * d - d && 0 <= (k - 1) * d && d <= k * d
  {
    MulMono(0, k - 1, d);
  }

  lemma DueByMore(q: seq<Event>, t: int, u: int)
    requires DueBy(q, t) && t <= u
    ensures DueBy(q, u)
  {
  }

  lemma LessRoom(s: State, k: nat, d: nat)
    requires RoomFor(s, k, d) && k > 0
    ensures RoomFor(s, k - 1, d)
  {
    OneLess(k, d);
    DueByMore(s.queue, MAX_TIME + 1 - k * d, MAX_TIME + 1 - (k - 1) * d);
  }

  /** A new event takes one unique id and moves the end of time by one delay at most. */
  lemma RoomToInsert(s: State, step: Step, k: nat, d: nat)
    requires RoomFor(s, k, d) && k > 0 && Enabled(s, step) && Inserts(step)
    requires NewOf(s, step).key.ts <= s.currentTs + d
    ensures RoomFor(Apply(s, step), k - 1, d)
  {
    OneLess(k, d);
    var t := MAX_TIME + 1 - (k - 1) * d;
    DueByMore(s.queue, MAX_TIME + 1 - k * d, t);
    InsertedDueBy(s.queue, NewOf(s, step), t);
    hide DueBy, Inserted;
  }

  lemma RoomForCall(s: State, call: Step, n: nat, d: nat)
    requires Room(s, n + 1, d) && s.drained == [] && Ordinary(call, d)
    ensures Enabled(s, call) && Apply(s, call).drained == [] && Room(Apply(s, call), n, d)
  {
    hide DueBy, Inserted, Without, WithoutId, IsExpired;
    var k := |s.handOver| + n + 1;
    OneLess(k, d);
    LessRoom(s, k, d);
    if Inserts(call) { RoomToInsert(s, call, k, d); }
  }

  lemma RoomForProcess(s: State, n: nat, d: nat)
    requires Room(s, n, d) && s.drained == [] && s.queue != []
    ensures Enabled(s, ProcessOne) && Apply(s, ProcessOne).drained == [] && Room(Apply(s, ProcessOne), n, d)
  {
    var k := |s.handOver| + n;
    MulMono(0, k, d);
    LaterDueBy(s.queue, MAX_TIME + 1 - k * d, MAX_TIME + 1 - k * d);
  }

  lemma RoomForDrain(s: State, n: nat, d: nat)
    requires Room(s, n, d) && s.drained != []
    ensures Enabled(s, DrainOne) && Apply(s, DrainOne).drained == s.drained[1..] && Room(Apply(s, DrainOne), n, d)
  {
    hide DueBy, Inserted;
    var k := |s.drained| + |s.handOver| + n;
    OneLess(k, d);
    RoomToInsert(s, DrainOne, k, d);
  }

  lemma FirstOrdinary(moves: seq<Move>, d: nat)
    requires moves != [] && OrdinaryMoves(moves, d)
    ensures OrdinaryMoves(moves[1..], d) && (moves[0].Take? ==> Ordinary(moves[0].step, d))
  {
  }

  lemma RoomLeft(s: State, n: nat, d: nat)
    requires Room(s, n + 1, d)
    ensures Room(s, n, d)
  {
    LessRoom(s, |s.drained| + |s.handOver| + n + 1, d);
  }

  lemma {:induction false} RoomForDrains(s: State, n: nat, d: nat)
    requires Room(s, n, d)
    ensures Legal(s, StepsOf(Drains(|s.drained|)))
    ensures var t := After(s, StepsOf(Drains(|s.drained|))); t.drained == [] && Room(t, n, d)
    decreases |s.drained|
  {
    DrainsSteps(|s.drained|);
    if s.drained != [] {
      hide Room, StepsOf, Apply, Enabled, Legal, After;
      RoomForDrain(s, n, d);
      var u, rest := Apply(s, DrainOne), StepsOf(Drains(|s.drained| - 1));
      RoomForDrains(u, n, d);
      OneStep(s, DrainOne);
      AfterAppend(s, [DrainOne], rest);
    }
  }

  lemma RoomForDrainPlan(s: State, n: nat, d: nat)
    requires Room(s, n, d) && s.drained == []
    ensures Legal(s, StepsOf(DrainPlan(s)))
    ensures var t := After(s, StepsOf(DrainPlan(s))); t.drained == [] && Room(t, n, d)
  {
    if !s.handOverEmpty {
      SwapKeepsRoom(s, n, d);
      OneMove(Take(Swap), ListKind);
      OneStep(s, Swap);
      var u := Apply(s, Swap);
      RoomForDrains(u, n, d);
      hide Room, StepsOf, Apply, Enabled;
      StepsOfConcat([Take(Swap)], Drains(|s.handOver|));
      AfterAppend(s, [Swap], StepsOf(Drains(|s.handOver|)));
    }
  }

  lemma SwapKeepsRoom(s: State, n: nat, d: nat)
    requires Room(s, n, d) && s.drained == [] && !s.handOverEmpty
    ensures Enabled(s, Swap) && Apply(s, Swap).drained == s.handOver && Room(Apply(s, Swap), n, d)
  {
    MulMono(0, |s.handOver| + n, d);
  }

  /** One plan after another. */
  lemma RoomForBoth(s: State, a: seq<Move>, b: seq<Move>)
    requires Legal(s, StepsOf(a)) && Legal(After(s, StepsOf(a)), StepsOf(b))
    ensures Legal(s, StepsOf(a + b)) && After(s, StepsOf(a + b)) == After(After(s, StepsOf(a)), StepsOf(b))
  {
    StepsOfConcat(a, b);
    AfterAppend(s, StepsOf(a), StepsOf(b));
  }

  lemma RoomForMove(s: State, m: Move, n: nat, d: nat)
    requires (m.Take? ==> Ordinary(m.step, d)) && Room(s, n + 1, d) && s.drained == []
    ensures Legal(s, StepsOf([m]))
    ensures var t := After(s, StepsOf([m])); t.drained == [] && Room(t, n, d)
  {
    hide Ordinary, Room, StepsOf, Apply, Enabled;
    OneMove(m, ListKind);
    if m.Take? {
      RoomForCall(s, m.step, n, d);
      OneStep(s, m.step);
    } else {
      RoomLeft(s, n, d);
    }
  }

  /** Ordinary moves can all be made while there is room. */
  lemma {:induction false} RoomForMoves(s: State, moves: seq<Move>, n: nat, d: nat)
    requires OrdinaryMoves(moves, d) && Room(s, |moves| + n, d) && s.drained == []
    ensures Legal(s, StepsOf(moves))
    ensures var t := After(s, StepsOf(moves)); t.drained == [] && Room(t, n, d)
    decreases |moves|
  {
    if moves != [] {
      hide Ordinary, OrdinaryMoves, Room, StepsOf, Legal, After;
      var first, rest := [moves[0]], moves[1..];
      FirstOrdinary(moves, d);
      RoomForMove(s, moves[0], |rest| + n, d);
      RoomForMoves(After(s, StepsOf(first)), rest, n, d);
      RoomForBoth(s, first, rest);
      assert moves == first + rest;
    }
  }

  lemma RoomForHandling(s: State, handling: seq<Move>, others: seq<Move>, n: nat, d: nat)
    requires OrdinaryMoves(handling, d) && OrdinaryMoves(others, d) && s.drained == []
    requires Room(s, |handling| + |others| + n, d)
    ensures Legal(s, StepsOf(handling + others))
    ensures var t := After(s, StepsOf(handling + others)); t.drained == [] && Room(t, n, d)
  {
    hide OrdinaryMoves, Room, StepsOf;
    RoomForMoves(s, handling, |others| + n, d);
    RoomForMoves(After(s, StepsOf(handling)), others, n, d);
    RoomForBoth(s, handling, others);
  }

  lemma {:induction false} RoomForLess(s: State, m: nat, n: nat, d: nat)
    requires Room(s, m + n, d)
    ensures Room(s, n, d)
  {
    hide Room;
    if m > 0 {
      RoomLeft(s, m - 1 + n, d);
      RoomForLess(s, m - 1, n, d);
    }
  }

  lemma RoomForFront(s: State, turn: Turn, n: nat, d: nat)
    requires OrdinaryMoves(MovesOf(turn.handler), d) && OrdinaryMoves(HandOversOf(turn.others), d)
    requires s.queue != [] && s.drained == [] && Room(s, |turn.handler| + |turn.others| + n, d)
    ensures Legal(s, StepsOf(TurnFront(s, turn)))
    ensures var t := After(s, StepsOf(TurnFront(s, turn))); t.drained == [] && Room(t, n, d)
  {
    var handling := if s.queue[0].impl in s.cancelled then [] else MovesOf(turn.handler);
    var others, first := HandOversOf(turn.others), [Take(ProcessOne)];
    assert TurnFront(s, turn) == first + (handling + others);
    OneMove(Take(ProcessOne), ListKind);
    hide Room, StepsOf, Apply, Enabled;
    if handling == [] { RoomForLess(s, |turn.handler|, |others| + n, d); }
    RoomForProcess(s, |handling| + |others| + n, d);
    OneStep(s, ProcessOne);
    RoomForHandling(Apply(s, ProcessOne), handling, others, n, d);
    RoomForBoth(s, first, handling + others);
  }

  lemma RoomForTurn(s: State, turn: Turn, n: nat, d: nat)
    requires OrdinaryMoves(MovesOf(turn.handler), d) && OrdinaryMoves(HandOversOf(turn.others), d)
    requires s.queue != [] && s.drained == [] && Room(s, |turn.handler| + |turn.others| + n, d)
    ensures Legal(s, StepsOf(TurnPlan(s, turn)))
    ensures var t := After(s, StepsOf(TurnPlan(s, turn))); t.drained == [] && Room(t, n, d)
  {
    hide OrdinaryMoves, Room, StepsOf, TurnFront, DrainPlan;
    RoomForFront(s, turn, n, d);
    var t := After(s, StepsOf(TurnFront(s, turn)));
    RoomForDrainPlan(t, n, d);
    RoomForBoth(s, TurnFront(s, turn), DrainPlan(t));
  }

  lemma FirstIsOrdinary(script: seq<Turn>, d: nat)
    requires OrdinaryScript(script, d)
    ensures var turn := FirstTurn(script);
      && OrdinaryMoves(MovesOf(turn.handler), d) && OrdinaryMoves(HandOversOf(turn.others), d)
      && CallsIn(script) == |turn.handler| + |turn.others| + CallsIn(LaterTurns(script))
    ensures OrdinaryScript(LaterTurns(script), d)
  {
  }

  lemma {:induction false} RoomForScript(s: State, script: seq<Turn>, d: nat)
    requires OrdinaryScript(script, d) && s.drained == [] && Room(s, CallsIn(script), d)
    ensures Legal(s, StepsOf(ScriptPlan(s, script)))
    decreases |script|, |s.queue| + |s.handOver|
  {
    if !(s.queue == [] || s.stop) {
      var turn := FirstTurn(script);
      FirstIsOrdinary(script, d);
      hide OrdinaryMoves, OrdinaryScript, CallsIn, Room, StepsOf, TurnPlan;
      RoomForTurn(s, turn, CallsIn(LaterTurns(script)), d);
      var plan := TurnPlan(s, turn);
      var t := After(s, StepsOf(plan));
      TurnShrinks(s, script);
      RoomForScript(t, LaterTurns(script), d);
      RoomForBoth(s, plan, ScriptPlan(t, LaterTurns(script)));
    }
  }

  /** A script of ordinary calls for which there is room is never stuck. */
  lemma RoomForRun(s: State, script: seq<Turn>, d: nat)
    requires OrdinaryScript(script, d) && s.drained == [] && Room(s, CallsIn(script), d)
    ensures Legal(s, StepsOf(RunPlan(s, script)))
  {
    hide OrdinaryScript, ScriptPlan;
    var n, drain := CallsIn(script), DrainPlan(s);
    RoomForDrainPlan(s, n, d);
    var u := After(s, StepsOf(drain));
    CanClear(u, n, d);
    OneMove(Take(Step.ClearStop), ListKind);
    OneStep(u, Step.ClearStop);
    RoomForBoth(s, drain, [Take(Step.ClearStop)]);
    RoomForScript(Apply(u, Step.ClearStop), script, d);
    RoomForBoth(s, StartPlan(s), ScriptPlan(Apply(u, Step.ClearStop), script));
  }

  lemma CanClear(s: State, n: nat, d: nat)
    requires Room(s, n, d) && s.drained == []
    ensures Enabled(s, Step.ClearStop)
    ensures var t := Apply(s, Step.ClearStop); t.drained == [] && Room(t, n, d)
  {
    MulMono(0, |s.handOver| + n, d);
  }

  /** A new simulator has room for n calls with delays of at most d when they last to the end of time together. */
  lemma RoomAtFirst(n: nat, d: nat)
    ensures Room(INITIAL, n, d) <==> n + 4 < B32 && n * d <= MAX_TIME
  {
  }
}
