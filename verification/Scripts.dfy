/**
 What a run of the simulator is meant to do: the script of its handlers, of the changes of scheduler and of the
 other threads, turned into the one sequence of moves that the run has to make.
 */
module Scripts {
  import opened Words
  import opened Events
  import opened SimulatorRuns
  import RunHistories
  import opened Schedulers
  import C = CalendarScheduler
  import CalendarLists

  /** The steps that are calls into the simulator. */
  predicate IsCall(step: Step)
  {
    match step
    case Schedule(_, _) => true
    case ScheduleNow(_) => true
    case ScheduleWithContext(_, _, _) => true
    case HandOver(_, _, _) => true
    case ScheduleDestroy(_) => true
    case Cancel(_) => true
    case Remove(_) => true
    case Stop => true
    case _ => false
  }

  type Call = step: Step | IsCall(step) witness Step.Stop

  datatype Action = Do(call: Call) | ChangeScheduler(kind: Kind)

  /** What happens while one event is handled: the actions of its handler and the events of other threads. */
  datatype Turn = Turn(handler: seq<Action>, others: seq<Pending>)

  const IDLE: Turn := Turn([], [])

  /** A step of the machine, or a change of the scheduler, which the machine does not notice. */
  datatype Move = Take(step: Step) | Switch(kind: Kind)

  /** A step that is not enabled stops a run, and so does a scheduler that fails. */
  datatype Outcome = Done | Blocked(step: Step) | Failed(cause: Cause)

  // A calendar with days of width zero, or a heap whose hole gets an event that does not fit there.
  datatype Cause = ZeroWidth | Misfit

  // ---------- moves ----------

  function MoveOf(action: Action): (m: Move)
  {
    match action
    case Do(call) => Take(call)
    case ChangeScheduler(kind) => Switch(kind)
  }

  function MovesOf(actions: seq<Action>): (moves: seq<Move>)
    ensures |moves| == |actions|
  {
    seq(|actions|, i requires 0 <= i < |actions| => MoveOf(actions[i]))
  }

  function HandOverOf(p: Pending): (step: Step)
  {
    Step.HandOver(p.context, p.delay, p.impl)
  }

  function HandOversOf(others: seq<Pending>): (moves: seq<Move>)
    ensures |moves| == |others|
  {
    seq(|others|, i requires 0 <= i < |others| => Take(HandOverOf(others[i])))
  }

  function StepsOf(moves: seq<Move>): (steps: seq<Step>)
  {
    if moves == [] then []
    else StepsOf(moves[..|moves| - 1]) + match moves[|moves| - 1] case Take(step) => [step] case Switch(_) => []
  }

  /** The kind of scheduler after the moves. */
  function KindAfter(from: Kind, moves: seq<Move>): (to: Kind)
  {
    if moves == [] then from
    else match moves[|moves| - 1] case Switch(kind) => kind case Take(_) => KindAfter(from, moves[..|moves| - 1])
  }

  lemma {:induction false} StepsOfConcat(a: seq<Move>, b: seq<Move>)
    ensures StepsOf(a + b) == StepsOf(a) + StepsOf(b)
  {
    if b == [] {
      assert a + b == a;
    } else {
      var n := |b| - 1;
      assert (a + b)[..|a + b| - 1] == a + b[..n];
      StepsOfConcat(a, b[..n]);
    }
  }

  lemma {:induction false} KindAfterConcat(from: Kind, a: seq<Move>, b: seq<Move>)
    ensures KindAfter(from, a + b) == KindAfter(KindAfter(from, a), b)
  {
    if b == [] {
      assert a + b == a;
    } else {
      assert (a + b)[..|a + b| - 1] == a + b[..|b| - 1];
      KindAfterConcat(from, a, b[..|b| - 1]);
    }
  }

  lemma OneMove(m: Move, from: Kind)
    ensures StepsOf([m]) == if m.Take? then [m.step] else []
    ensures KindAfter(from, [m]) == if m.Take? then from else m.kind
  {
    assert [m][..0] == [];
  }

  // ---------- traces ----------

  /** Some steps lead from one state to another. */
  ghost predicate Leads(s: State, trace: seq<Step>, t: State)
  {
    Legal(s, trace) && After(s, trace) == t
  }

  lemma MoreSteps(s: State, trace: seq<Step>, t: State, more: seq<Step>, u: State)
    requires Leads(s, trace, t) && Leads(t, more, u)
    ensures Leads(s, trace + more, u)
  {
    AfterAppend(s, trace, more);
  }

  lemma ReachedOn(s: State, trace: seq<Step>, t: State)
    requires Reached(s) && Leads(s, trace, t)
    ensures Reached(t)
  {
    var steps :| Legal(INITIAL, steps) && After(INITIAL, steps) == s;
    AfterAppend(INITIAL, steps, trace);
  }

  // ---------- making the moves of a plan ----------

  /** The moves made are those planned, all of them or up to the one that stopped the run. */
  predicate Follows(plan: seq<Move>, trace: seq<Move>, outcome: Outcome)
  {
    && trace <= plan
    && match outcome
       case Done => trace == plan
       case Blocked(step) => |trace| < |plan| && plan[|trace|] == Take(step)
       case Failed(_) => trace != []
  }

  /** Why the last move made the scheduler fail, in the state after it and on the scheduler before it. */
  ghost predicate Breaks(m: Move, cause: Cause, t: State, kind: Kind)
  {
    match m
    case Take(step) =>
      if cause == Misfit then kind == HeapKind && step.Remove?
      else kind == CalendarKind && (Inserts(step) || step.ProcessOne? || step.Remove?) && CalendarLists.SampledWidth(t.queue) == 0
    case Switch(to) =>
      && cause == ZeroWidth
      && ((kind == CalendarKind && exists n :: EmptyingTraps(t.queue, 0, n)) || (to == CalendarKind && FillingTraps(t.queue, 0, 2)))
  }

  /** A run that starts in s on one kind of scheduler has made moves of the plan and ended in t on another. */
  ghost predicate Plays(s: State, from: Kind, plan: seq<Move>, trace: seq<Move>, outcome: Outcome, t: State, to: Kind)
  {
    && Leads(s, StepsOf(trace), t) && Follows(plan, trace, outcome)
    && match outcome
       case Done => to == KindAfter(from, trace)
       case Blocked(step) => to == KindAfter(from, trace) && !Enabled(t, step)
       case Failed(cause) => to == KindAfter(from, trace[..|trace| - 1]) && Breaks(trace[|trace| - 1], cause, t, to)
  }

  lemma PlaysNothing(s: State, kind: Kind)
    ensures Plays(s, kind, [], [], Done, s, kind)
  {
  }

  lemma PlaysStep(s: State, kind: Kind, step: Step)
    requires Enabled(s, step)
    ensures Plays(s, kind, [Take(step)], [Take(step)], Done, Apply(s, step), kind)
  {
    OneMove(Take(step), kind);
    OneStep(s, step);
  }

  lemma StepFails(s: State, kind: Kind, step: Step, cause: Cause)
    requires Enabled(s, step) && Breaks(Take(step), cause, Apply(s, step), kind)
    ensures Plays(s, kind, [Take(step)], [Take(step)], Failed(cause), Apply(s, step), kind)
  {
    OneMove(Take(step), kind);
    OneStep(s, step);
    assert [Take(step)][..0] == [];
  }

  lemma StepIsBlocked(s: State, kind: Kind, step: Step)
    requires !Enabled(s, step)
    ensures Plays(s, kind, [Take(step)], [], Blocked(step), s, kind)
  {
  }

  lemma PlaysSwitch(s: State, from: Kind, to: Kind)
    ensures Plays(s, from, [Switch(to)], [Switch(to)], Done, s, to)
  {
    OneMove(Switch(to), from);
  }

  lemma SwitchFails(s: State, from: Kind, to: Kind)
    requires Breaks(Switch(to), ZeroWidth, s, from)
    ensures Plays(s, from, [Switch(to)], [Switch(to)], Failed(ZeroWidth), s, from)
  {
    OneMove(Switch(to), from);
    assert [Switch(to)][..0] == [];
  }

  /** One plan after another. */
  lemma PlaysMore(s: State, from: Kind, plan: seq<Move>, mid: State, kind: Kind,
                  more: seq<Move>, trace: seq<Move>, outcome: Outcome, t: State, to: Kind)
    requires Plays(s, from, plan, plan, Done, mid, kind) && Plays(mid, kind, more, trace, outcome, t, to)
    ensures Plays(s, from, plan + more, plan + trace, outcome, t, to)
  {
    hide Breaks, Leads;
    StepsOfConcat(plan, trace);
    MoreSteps(s, StepsOf(plan), mid, StepsOf(trace), t);
    if outcome.Failed? {
      var n := |trace| - 1;
      KindAfterConcat(from, plan, trace[..n]);
      assert (plan + trace)[..|plan + trace| - 1] == plan + trace[..n];
    } else {
      KindAfterConcat(from, plan, trace);
    }
  }

  /** A run that has stopped makes no move of a later plan. */
  lemma PlaysPart(s: State, from: Kind, plan: seq<Move>, more: seq<Move>, trace: seq<Move>, outcome: Outcome, t: State, to: Kind)
    requires Plays(s, from, plan, trace, outcome, t, to) && !outcome.Done?
    ensures Plays(s, from, plan + more, trace, outcome, t, to)
  {
  }

  /** A plan that is done has been played in full. */
  lemma AllPlayed(s: State, from: Kind, plan: seq<Move>, trace: seq<Move>, t: State, to: Kind)
    requires Plays(s, from, plan, trace, Done, t, to)
    ensures trace == plan
  {
  }

  lemma LeadsTo(s: State, from: Kind, plan: seq<Move>, trace: seq<Move>, outcome: Outcome, t: State, to: Kind)
    requires Plays(s, from, plan, trace, outcome, t, to)
    ensures Leads(s, StepsOf(trace), t)
  {
  }

  lemma BreaksAsInsert(step: Step, t: State, kind: Kind)
    requires Inserts(step) && (Breaks(Take(step), ZeroWidth, t, kind) || Breaks(Take(step), Misfit, t, kind))
    ensures Breaks(Take(step), ZeroWidth, t, kind)
  {
  }

  lemma BreaksAsRemoveNext(t: State, kind: Kind)
    requires Breaks(Take(ProcessOne), ZeroWidth, t, kind) || Breaks(Take(ProcessOne), Misfit, t, kind)
    ensures Breaks(Take(ProcessOne), ZeroWidth, t, kind)
  {
  }

  lemma ChangeBreaks(s: State, from: Kind, to: Kind, n: nat)
    requires (from == CalendarKind && EmptyingTraps(s.queue, 0, n)) || (to == CalendarKind && FillingTraps(s.queue, 0, 2))
    ensures Breaks(Switch(to), ZeroWidth, s, from)
  {
  }

  // ---------- the plan of a script ----------

  function Drains(n: nat): (moves: seq<Move>)
  {
    if n == 0 then [] else [Take(DrainOne)] + Drains(n - 1)
  }

  /** What the main thread does about the hand-over list. */
  function DrainPlan(s: State): (moves: seq<Move>)
  {
    if s.handOverEmpty then [] else [Take(Swap)] + Drains(|s.handOver|)
  }

  /** The next event, its handler unless it is cancelled, and the other threads. */
  function TurnFront(s: State, turn: Turn): (front: seq<Move>)
    requires s.queue != []
  {
    [Take(ProcessOne)] + (if s.queue[0].impl in s.cancelled then [] else MovesOf(turn.handler)) + HandOversOf(turn.others)
  }

  /** After them, as far as they can be made, the hand-over list. */
  ghost function TurnPlan(s: State, turn: Turn): (plan: seq<Move>)
    requires s.queue != []
  {
    TurnFront(s, turn) + TurnRest(s, turn)
  }

  ghost function TurnRest(s: State, turn: Turn): (plan: seq<Move>)
    requires s.queue != []
  {
    var front := TurnFront(s, turn);
    if Legal(s, StepsOf(front)) then DrainPlan(After(s, StepsOf(front))) else []
  }

  function FirstTurn(script: seq<Turn>): (turn: Turn)
  {
    if script == [] then IDLE else script[0]
  }

  function LaterTurns(script: seq<Turn>): (turns: seq<Turn>)
  {
    if script == [] then [] else script[1..]
  }

  /** Turn after turn, and idle ones at the end, until the queue is empty or a handler has stopped the run. */
  ghost function ScriptPlan(s: State, script: seq<Turn>): (plan: seq<Move>)
    decreases |script|, |s.queue| + |s.handOver|
  {
    if s.queue == [] || s.stop then []
    else
      var plan := TurnPlan(s, FirstTurn(script));
      if Legal(s, StepsOf(plan)) then
        TurnShrinks(s, script);
        plan + ScriptPlan(After(s, StepsOf(plan)), LaterTurns(script))
      else plan
  }

  /** What a run does before its first event. */
  function StartPlan(s: State): (plan: seq<Move>)
  {
    DrainPlan(s) + [Take(Step.ClearStop)]
  }

  ghost function RunPlan(s: State, script: seq<Turn>): (plan: seq<Move>)
  {
    StartPlan(s) + RunRest(s, script)
  }

  ghost function RunRest(s: State, script: seq<Turn>): (plan: seq<Move>)
  {
    var start := StartPlan(s);
    if Legal(s, StepsOf(start)) then ScriptPlan(After(s, StepsOf(start)), script) else []
  }

  /** What is planned after the first turn. */
  ghost function ScriptRest(s: State, script: seq<Turn>): (plan: seq<Move>)
    requires s.queue != []
  {
    var plan := TurnPlan(s, FirstTurn(script));
    if Legal(s, StepsOf(plan)) then ScriptPlan(After(s, StepsOf(plan)), LaterTurns(script)) else []
  }

  lemma NextTurn(s: State, script: seq<Turn>)
    requires s.queue != [] && !s.stop
    ensures ScriptPlan(s, script) == TurnPlan(s, FirstTurn(script)) + ScriptRest(s, script)
  {
    hide TurnPlan;
  }

  lemma NoTurn(s: State, script: seq<Turn>)
    requires s.queue == [] || s.stop
    ensures ScriptPlan(s, script) == []
  {
  }

  /** The first destroy event and its handler, unless it is cancelled. */
  function DestroyFront(s: State, handler: seq<Action>): (front: seq<Move>)
    requires s.destroyEvents != []
  {
    [Take(DestroyOne)] + if s.destroyEvents[0].impl in s.cancelled then [] else MovesOf(handler)
  }

  function FirstHandler(handlers: seq<seq<Action>>): (handler: seq<Action>)
  {
    if handlers == [] then [] else handlers[0]
  }

  function LaterHandlers(handlers: seq<seq<Action>>): (later: seq<seq<Action>>)
  {
    if handlers == [] then [] else handlers[1..]
  }

  ghost function DestroyPlan(s: State, handlers: seq<seq<Action>>): (plan: seq<Move>)
    decreases |handlers|, |s.destroyEvents|
  {
    if s.destroyEvents == [] then []
    else
      var front := DestroyFront(s, FirstHandler(handlers));
      if Legal(s, StepsOf(front)) then
        DestroyShrinks(s, handlers);
        front + DestroyPlan(After(s, StepsOf(front)), LaterHandlers(handlers))
      else front
  }

  ghost function DestroyRest(s: State, handlers: seq<seq<Action>>): (plan: seq<Move>)
    requires s.destroyEvents != []
  {
    var front := DestroyFront(s, FirstHandler(handlers));
    if Legal(s, StepsOf(front)) then DestroyPlan(After(s, StepsOf(front)), LaterHandlers(handlers)) else []
  }

  lemma NextDestroy(s: State, handlers: seq<seq<Action>>)
    requires s.destroyEvents != []
    ensures DestroyPlan(s, handlers) == DestroyFront(s, FirstHandler(handlers)) + DestroyRest(s, handlers)
    ensures var front := DestroyFront(s, FirstHandler(handlers));
      Legal(s, StepsOf(front)) && handlers == [] ==> |After(s, StepsOf(front)).destroyEvents| < |s.destroyEvents|
  {
    var front := DestroyFront(s, FirstHandler(handlers));
    if Legal(s, StepsOf(front)) { DestroyShrinks(s, handlers); }
  }

  lemma NoDestroy(s: State, handlers: seq<seq<Action>>)
    requires s.destroyEvents == []
    ensures DestroyPlan(s, handlers) == []
  {
  }

  // ---------- plans end ----------

  lemma {:induction false} DrainsSteps(n: nat)
    ensures n == 0 ==> StepsOf(Drains(n)) == []
    ensures n > 0 ==> StepsOf(Drains(n)) == [DrainOne] + StepsOf(Drains(n - 1))
  {
    if n > 0 {
      OneMove(Take(DrainOne), ListKind);
      StepsOfConcat([Take(DrainOne)], Drains(n - 1));
    }
  }

  /** Draining moves everything taken over into the queue. */
  lemma {:induction false} DrainsAll(s: State, n: nat)
    requires n == |s.drained| && Legal(s, StepsOf(Drains(n)))
    ensures var t := After(s, StepsOf(Drains(n)));
      && t.drained == [] && t.handOver == s.handOver && t.handOverEmpty == s.handOverEmpty
      && |t.queue| == |s.queue| + n && t.executed == s.executed && t.stop == s.stop && t.destroyEvents == s.destroyEvents
    decreases n
  {
    DrainsSteps(n);
    if n > 0 {
      var steps := StepsOf(Drains(n));
      assert steps[0] == DrainOne && steps[1..] == StepsOf(Drains(n - 1));
      DrainsAll(Apply(s, DrainOne), n - 1);
    }
  }

  /** After the drain nothing is left on the way into the queue. */
  lemma DrainPlanDrains(s: State)
    requires s.drained == [] && Legal(s, StepsOf(DrainPlan(s))) && (s.handOverEmpty ==> s.handOver == [])
    ensures var t := After(s, StepsOf(DrainPlan(s)));
      && t.drained == [] && t.handOver == [] && t.handOverEmpty
      && |t.queue| == |s.queue| + |s.handOver| && t.executed == s.executed && t.stop == s.stop
  {
    if !s.handOverEmpty {
      var drains := Drains(|s.handOver|);
      OneMove(Take(Swap), ListKind);
      StepsOfConcat([Take(Swap)], drains);
      LegalSplit(s, [Swap], StepsOf(drains));
      OneStep(s, Swap);
      AfterAppend(s, [Swap], StepsOf(drains));
      DrainsAll(Apply(s, Swap), |s.handOver|);
    }
  }

  /** An idle turn takes one event off what is waiting. */
  lemma IdleTurnShrinks(s: State)
    requires s.queue != [] && Legal(s, StepsOf(TurnPlan(s, IDLE)))
    ensures var t := After(s, StepsOf(TurnPlan(s, IDLE)));
      |t.queue| + |t.handOver| < |s.queue| + |s.handOver|
  {
    hide StepsOf, Legal, After, TurnPlan, DrainPlan;
    assert TurnFront(s, IDLE) == [Take(ProcessOne)];
    OneMove(Take(ProcessOne), ListKind);
    TurnSplit(s, IDLE);
    OneStep(s, ProcessOne);
    var u := Apply(s, ProcessOne);
    if u.handOverEmpty {
      NothingToDrain(u);
    } else {
      DrainPlanDrains(u);
    }
  }

  lemma NothingToDrain(s: State)
    requires s.handOverEmpty
    ensures StepsOf(DrainPlan(s)) == [] && After(s, StepsOf(DrainPlan(s))) == s
  {
  }

  lemma TurnShrinks(s: State, script: seq<Turn>)
    requires s.queue != [] && Legal(s, StepsOf(TurnPlan(s, FirstTurn(script))))
    ensures var t := After(s, StepsOf(TurnPlan(s, FirstTurn(script))));
      script == [] ==> |t.queue| + |t.handOver| < |s.queue| + |s.handOver|
  {
    if script == [] { IdleTurnShrinks(s); }
  }

  /** A turn that can be made is its front and then the drain. */
  lemma TurnSplit(s: State, turn: Turn)
    requires s.queue != [] && Legal(s, StepsOf(TurnPlan(s, turn)))
    ensures var front := StepsOf(TurnFront(s, turn));
      && Legal(s, front) && Legal(After(s, front), StepsOf(DrainPlan(After(s, front))))
      && After(s, StepsOf(TurnPlan(s, turn))) == After(After(s, front), StepsOf(DrainPlan(After(s, front))))
  {
    var front := TurnFront(s, turn);
    assert front + [] == front;
    if Legal(s, StepsOf(front)) {
      var drain := DrainPlan(After(s, StepsOf(front)));
      StepsOfConcat(front, drain);
      LegalSplit(s, StepsOf(front), StepsOf(drain));
      AfterAppend(s, StepsOf(front), StepsOf(drain));
    }
  }

  lemma DestroyShrinks(s: State, handlers: seq<seq<Action>>)
    requires s.destroyEvents != [] && Legal(s, StepsOf(DestroyFront(s, FirstHandler(handlers))))
    ensures handlers == [] ==>
      |After(s, StepsOf(DestroyFront(s, FirstHandler(handlers)))).destroyEvents| < |s.destroyEvents|
  {
    if handlers == [] {
      assert DestroyFront(s, []) == [Take(DestroyOne)];
      OneMove(Take(DestroyOne), ListKind);
      OneStep(s, DestroyOne);
    }
  }

  // ---------- what a run can count on ----------

  /** A plan whose steps can all be taken is not blocked. */
  lemma LegalPlanIsNotBlocked(s: State, from: Kind, plan: seq<Move>, trace: seq<Move>, outcome: Outcome, t: State, to: Kind)
    requires Plays(s, from, plan, trace, outcome, t, to) && Legal(s, StepsOf(plan))
    ensures !outcome.Blocked?
  {
    if outcome.Blocked? {
      var n := |trace|;
      var next, rest := [plan[n]], plan[n + 1..];
      assert plan == trace + (next + rest);
      StepsOfConcat(trace, next + rest);
      StepsOfConcat(next, rest);
      OneMove(plan[n], from);
      LegalSplit(s, StepsOf(trace), StepsOf(next + rest));
    }
  }

  /** What a script may promise: no calendar, no heap, no removals, delays below 2^32. */
  datatype Promise = Promise(noCalendar: bool, noHeap: bool, noRemoval: bool, shortDelays: bool)

  predicate Fits(m: Move, p: Promise)
  {
    && (p.noCalendar ==> m != Switch(CalendarKind))
    && (p.noHeap ==> m != Switch(HeapKind))
    && (p.noRemoval && m.Take? ==> !m.step.Remove?)
    && (p.shortDelays && m.Take? ==> Short(m.step))
  }

  predicate AllFit(moves: seq<Move>, p: Promise)
  {
    forall i :: 0 <= i < |moves| ==> Fits(moves[i], p)
  }

  predicate ScriptFits(script: seq<Turn>, p: Promise)
  {
    forall i :: 0 <= i < |script| ==> AllFit(MovesOf(script[i].handler), p) && AllFit(HandOversOf(script[i].others), p)
  }

  predicate HandlersFit(handlers: seq<seq<Action>>, p: Promise)
  {
    forall i :: 0 <= i < |handlers| ==> AllFit(MovesOf(handlers[i]), p)
  }

  lemma {:induction false} DrainsFit(n: nat, p: Promise)
    ensures AllFit(Drains(n), p)
  {
    if n > 0 { DrainsFit(n - 1, p); }
  }

  lemma DrainPlanFits(s: State, p: Promise)
    ensures AllFit(DrainPlan(s), p)
  {
    DrainsFit(|s.handOver|, p);
  }

  lemma TurnPlanFits(s: State, turn: Turn, p: Promise)
    requires s.queue != [] && AllFit(MovesOf(turn.handler), p) && AllFit(HandOversOf(turn.others), p)
    ensures AllFit(TurnPlan(s, turn), p)
  {
    var front := TurnFront(s, turn);
    if Legal(s, StepsOf(front)) { DrainPlanFits(After(s, StepsOf(front)), p); }
  }

  lemma {:induction false} ScriptPlanFits(s: State, script: seq<Turn>, p: Promise)
    requires ScriptFits(script, p)
    ensures AllFit(ScriptPlan(s, script), p)
    decreases |script|, |s.queue| + |s.handOver|
  {
    if !(s.queue == [] || s.stop) {
      var plan := TurnPlan(s, FirstTurn(script));
      TurnPlanFits(s, FirstTurn(script), p);
      hide Fits, TurnPlan;
      if Legal(s, StepsOf(plan)) {
        TurnShrinks(s, script);
        ScriptPlanFits(After(s, StepsOf(plan)), LaterTurns(script), p);
      }
    }
  }

  /** What the turns of a script promise, the whole run keeps. */
  lemma RunPlanFits(s: State, script: seq<Turn>, p: Promise)
    requires ScriptFits(script, p)
    ensures AllFit(RunPlan(s, script), p)
  {
    var start := StartPlan(s);
    DrainPlanFits(s, p);
    if Legal(s, StepsOf(start)) { ScriptPlanFits(After(s, StepsOf(start)), script, p); }
  }

  lemma DestroyFrontFits(s: State, handlers: seq<seq<Action>>, p: Promise)
    requires HandlersFit(handlers, p) && s.destroyEvents != []
    ensures AllFit(DestroyFront(s, FirstHandler(handlers)), p) && HandlersFit(LaterHandlers(handlers), p)
  {
  }

  lemma BothFit(a: seq<Move>, b: seq<Move>, p: Promise)
    requires AllFit(a, p) && AllFit(b, p)
    ensures AllFit(a + b, p)
  {
  }

  lemma {:induction false} DestroyPlanFits(s: State, handlers: seq<seq<Action>>, p: Promise)
    requires HandlersFit(handlers, p)
    ensures AllFit(DestroyPlan(s, handlers), p)
    decreases |handlers|, |s.destroyEvents|
  {
    if s.destroyEvents != [] {
      hide Fits, AllFit, HandlersFit, DestroyFront, StepsOf, Legal, After;
      var front := DestroyFront(s, FirstHandler(handlers));
      DestroyFrontFits(s, handlers, p);
      if Legal(s, StepsOf(front)) {
        DestroyShrinks(s, handlers);
        var rest := DestroyPlan(After(s, StepsOf(front)), LaterHandlers(handlers));
        DestroyPlanFits(After(s, StepsOf(front)), LaterHandlers(handlers), p);
        BothFit(front, rest, p);
      }
    }
  }

  lemma {:induction false} KindFits(from: Kind, moves: seq<Move>, p: Promise)
    requires AllFit(moves, p)
    ensures from != CalendarKind && p.noCalendar ==> KindAfter(from, moves) != CalendarKind
    ensures from != HeapKind && p.noHeap ==> KindAfter(from, moves) != HeapKind
  {
    if moves != [] { KindFits(from, moves[..|moves| - 1], p); }
  }

  lemma {:induction false} StepsFit(moves: seq<Move>, p: Promise)
    requires AllFit(moves, p) && p.shortDelays
    ensures forall i :: 0 <= i < |StepsOf(moves)| ==> Short(StepsOf(moves)[i])
  {
    if moves != [] { StepsFit(moves[..|moves| - 1], p); }
  }

  /** What is due within 2^32 time units is not spread out. */
  lemma NearIsNotSpread(s: State)
    requires Reached(s) && Near(s)
    ensures !Spread(s.queue)
  {
    QueueBounds(s);
  }

  /** In a reached state the queue has room for all its events and their times are those of a simulation. */
  lemma QueueBounds(s: State)
    requires Reached(s)
    ensures EventList(s.queue) && |s.queue| + 1 < B32 && s.currentTs <= MAX_TIME
    ensures forall i :: 0 <= i < |s.queue| ==> s.currentTs <= s.queue[i].key.ts <= MAX_TIME
  {
    ReachedInvariant(s);
    assert forall i :: 0 <= i < |s.queue| ==> Less(Now(s), s.queue[i].key);
  }

  /** A width of zero is only met when the events of the queue are spread out. */
  lemma BreaksSpread(m: Move, t: State, kind: Kind)
    requires Reached(t) && Breaks(m, ZeroWidth, t, kind)
    ensures Spread(t.queue)
  {
    QueueBounds(t);
    hide EventList, Spread, CalendarLists.SampledWidth, Reached, EmptyingTraps, FillingTraps;
    if m.Take? {
      ZeroWidthIsSpread(t.queue);
    } else if kind == CalendarKind && exists n :: EmptyingTraps(t.queue, 0, n) {
      var n :| EmptyingTraps(t.queue, 0, n);
      MoveTrapIsSpread(t.queue, 0, n);
    } else {
      MoveTrapIsSpread(t.queue, 0, 2);
    }
  }

  /** Which failures the promises of the moves rule out. */
  predicate Spared(p: Promise, s: State, from: Kind, outcome: Outcome)
  {
    && ((from != CalendarKind && p.noCalendar) || (p.shortDelays && Near(s)) ==> outcome != Failed(ZeroWidth))
    && ((from != HeapKind && p.noHeap) || p.noRemoval ==> outcome != Failed(Misfit))
  }

  lemma PromisesSpare(s: State, from: Kind, plan: seq<Move>, trace: seq<Move>, outcome: Outcome, t: State, to: Kind, p: Promise)
    requires Plays(s, from, plan, trace, outcome, t, to) && AllFit(plan, p) && Reached(s)
    ensures Spared(p, s, from, outcome)
  {
    if outcome.Failed? {
      var n := |trace| - 1;
      assert Fits(plan[n], p) && trace[n] == plan[n];
      hide Fits, Near, Leads, Reached, Breaks;
      KindFits(from, trace[..n], p);
      if outcome == Failed(ZeroWidth) && p.shortDelays && Near(s) {
        StepsFit(trace, p);
        TraceStaysNear(s, StepsOf(trace), t);
        BreaksSpread(trace[n], t, to);
        NearIsNotSpread(t);
      }
      LastMove(trace[n], outcome.cause, t, to, p);
    }
  }

  lemma TraceStaysNear(s: State, steps: seq<Step>, t: State)
    requires Reached(s) && Leads(s, steps, t) && Near(s) && forall i :: 0 <= i < |steps| ==> Short(steps[i])
    ensures Reached(t) && Near(t)
  {
    hide Near, Short;
    ReachedOn(s, steps, t);
    ReachedInvariant(s);
    ShortRunStaysNear(s, steps);
  }

  lemma LastMove(m: Move, cause: Cause, t: State, kind: Kind, p: Promise)
    requires Fits(m, p) && Breaks(m, cause, t, kind)
    ensures cause == ZeroWidth ==> kind == CalendarKind || !p.noCalendar
    ensures cause == Misfit ==> kind == HeapKind && !p.noRemoval
  {
  }

  /** What a run can count on, from its script and where it starts. */
  lemma RunPromises(s: State, from: Kind, script: seq<Turn>, trace: seq<Move>, outcome: Outcome, t: State, to: Kind)
    requires Plays(s, from, RunPlan(s, script), trace, outcome, t, to) && Reached(s) && s.drained == []
    ensures Legal(s, StepsOf(RunPlan(s, script))) ==> !outcome.Blocked?
    ensures forall p: Promise :: ScriptFits(script, p) ==> Spared(p, s, from, outcome)
    ensures script == [] && s.handOverEmpty && from == ListKind ==> outcome.Done?
  {
    hide Plays, ScriptFits, AllFit, Spared, RunPlan, Legal, StepsOf, Reached;
    forall p: Promise | ScriptFits(script, p) ensures Spared(p, s, from, outcome) {
      RunPlanFits(s, script, p);
      PromisesSpare(s, from, RunPlan(s, script), trace, outcome, t, to, p);
    }
    if Legal(s, StepsOf(RunPlan(s, script))) { LegalPlanIsNotBlocked(s, from, RunPlan(s, script), trace, outcome, t, to); }
    if script == [] && s.handOverEmpty && from == ListKind { IdleRunIsDone(s, trace, outcome, t, to); }
  }

  lemma DestroyPromises(s: State, from: Kind, handlers: seq<seq<Action>>, trace: seq<Move>, outcome: Outcome, t: State, to: Kind)
    requires Plays(s, from, DestroyPlan(s, handlers), trace, outcome, t, to) && Reached(s)
    ensures forall p: Promise :: HandlersFit(handlers, p) ==> Spared(p, s, from, outcome)
  {
    hide Plays, HandlersFit, AllFit, Spared, DestroyPlan, Reached;
    forall p: Promise | HandlersFit(handlers, p) ensures Spared(p, s, from, outcome) {
      DestroyPlanFits(s, handlers, p);
      PromisesSpare(s, from, DestroyPlan(s, handlers), trace, outcome, t, to, p);
    }
  }

  // ---------- runs without handlers ----------

  /** With nothing handed over, idle turns can all be made: they take the events one by one. */
  lemma {:induction false} IdlePlanIsLegal(s: State)
    requires QueueAhead(s) && s.drained == [] && s.handOverEmpty
    ensures Legal(s, StepsOf(ScriptPlan(s, [])))
    decreases |s.queue|
  {
    if !(s.queue == [] || s.stop) {
      var u := Apply(s, ProcessOne);
      ProcessKeepsAhead(s);
      var plan := TurnPlan(s, IDLE);
      assert TurnFront(s, IDLE) == [Take(ProcessOne)];
      OneMove(Take(ProcessOne), ListKind);
      OneStep(s, ProcessOne);
      assert plan == [Take(ProcessOne)];
      IdlePlanIsLegal(u);
      var rest := ScriptPlan(u, []);
      assert ScriptPlan(s, []) == plan + rest;
      StepsOfConcat(plan, rest);
      AfterAppend(s, [ProcessOne], StepsOf(rest));
    }
  }

  lemma ProcessKeepsAhead(s: State)
    requires QueueAhead(s) && s.drained == [] && s.queue != []
    ensures Enabled(s, ProcessOne) && QueueAhead(Apply(s, ProcessOne))
    ensures var t := Apply(s, ProcessOne); t.drained == [] && t.handOverEmpty == s.handOverEmpty && |t.queue| == |s.queue| - 1
  {
    TailIsEventList(s.queue);
  }

  /** A run without handlers and without other threads on the list scheduler comes to its end. */
  lemma IdleRunIsDone(s: State, trace: seq<Move>, outcome: Outcome, t: State, to: Kind)
    requires Reached(s) && s.drained == [] && s.handOverEmpty
    requires Plays(s, ListKind, RunPlan(s, []), trace, outcome, t, to)
    ensures outcome.Done?
  {
    hide Plays;
    var p := Promise(true, true, true, true);
    RunPlanFits(s, [], p);
    PromisesSpare(s, ListKind, RunPlan(s, []), trace, outcome, t, to, p);
    assert outcome != Failed(ZeroWidth) && outcome != Failed(Misfit);
    IdleRunIsLegal(s);
    LegalPlanIsNotBlocked(s, ListKind, RunPlan(s, []), trace, outcome, t, to);
    NoOtherCause(outcome);
  }

  lemma NoOtherCause(outcome: Outcome)
    ensures outcome.Done? || outcome.Blocked? || outcome == Failed(ZeroWidth) || outcome == Failed(Misfit)
  {
    match outcome
    case Failed(ZeroWidth) =>
    case Failed(Misfit) =>
    case _ =>
  }

  lemma IdleRunIsLegal(s: State)
    requires Reached(s) && s.drained == [] && s.handOverEmpty
    ensures Legal(s, StepsOf(RunPlan(s, [])))
  {
    ReachedInvariant(s);
    var start := StartPlan(s);
    assert start == [Take(Step.ClearStop)];
    OneMove(Take(Step.ClearStop), ListKind);
    OneStep(s, Step.ClearStop);
    var u := Apply(s, Step.ClearStop);
    KeepsQueue(s, Step.ClearStop);
    IdlePlanIsLegal(u);
    StepsOfConcat(start, ScriptPlan(u, []));
    AfterAppend(s, [Step.ClearStop], StepsOf(ScriptPlan(u, [])));
  }
}
