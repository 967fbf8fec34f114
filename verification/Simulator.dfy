/**
 The default simulator (default-simulator-impl.cc).  Every method is tied to the step of the state machine
 in SimulatorRuns that it takes, on whichever of the three schedulers holds the events.
 */
module Simulator {
  import opened Words
  import opened Events
  import opened SimulatorRuns
  import RunHistories
  import opened Schedulers
  import opened Scripts
  import opened Turns
  import opened Budgets
  import L = ListScheduler
  import H = HeapScheduler
  import C = CalendarScheduler
  import CalendarLists

  /** What processing an event does to the fields of the state. */
  lemma NextIsTaken(s: State)
    requires Reached(s) && Enabled(s, ProcessOne)
    ensures s.queue != [] && s.currentTs <= s.queue[0].key.ts
    ensures var t, k := Apply(s, ProcessOne), s.queue[0].key;
      && t.queue == s.queue[1..] && t.uid == s.uid && t.unscheduled == s.unscheduled - 1 && t.stop == s.stop
      && t.currentTs == k.ts && t.currentUid == k.uid && t.currentContext == k.context
      && t.handOver == s.handOver && t.handOverEmpty == s.handOverEmpty && t.destroyEvents == s.destroyEvents
      && t.cancelled == s.cancelled && t.issued == s.issued
  {
    ReachedInvariant(s);
  }

  /** Over a run from a reached state, however it ends, events are executed in order and time does not go back. */
  lemma RunOrder(s: State, trace: seq<Step>, t: State)
    requires Reached(s) && Leads(s, trace, t)
    ensures InOrder(t) && s.currentTs <= t.currentTs && s.executed <= t.executed
  {
    ReachedInvariant(s);
    RunKeepsInvariant(s, trace);
    ExecutedBeforeQueued(t);
  }

  lemma CallKeeps(s: State, call: Call)
    requires Enabled(s, call)
    ensures var t := Apply(s, call);
      t.executed == s.executed && t.currentTs == s.currentTs && (s.drained == [] ==> t.drained == [])
  {
  }

  /**
   Why a call cannot be made: no event, a time that is past or beyond the end of time, no unique id left, or the
   removal of an event that is none of the simulator's.
   */
  predicate Refused(s: State, call: Call)
  {
    match call
    case Schedule(delay, impl) => impl == 0 || delay < 0 || s.currentTs + delay > MAX_TIME || s.uid == B32 - 1
    case ScheduleNow(impl) => impl == 0 || s.uid == B32 - 1
    case ScheduleWithContext(_, delay, impl) => impl == 0 || delay < 0 || s.currentTs + delay > MAX_TIME || s.uid == B32 - 1
    case HandOver(_, delay, impl) => impl == 0 || delay < 0 || delay > MAX_TIME
    case ScheduleDestroy(_) => s.uid == B32 - 1
    case Remove(id) => id.uid != DESTROY_UID && id !in s.issued && id.impl != 0
    case _ => false
  }

  lemma NotEnabledIsRefused(s: State, call: Call)
    requires Reached(s) && s.drained == [] && !Enabled(s, call)
    ensures Refused(s, call)
  {
    QueueBounds(s);
  }

  /** What a run comes to, from the moves it made. */
  lemma RunComesTo(s: State, from: Kind, script: seq<Turn>, trace: seq<Move>, outcome: Outcome, t: State, to: Kind)
    requires Plays(s, from, RunPlan(s, script), trace, outcome, t, to) && Reached(s) && s.drained == []
    ensures forall d: nat :: OrdinaryScript(script, d) && Room(s, CallsIn(script), d) ==> !outcome.Blocked?
    ensures RunsInTurns(s, script, trace, outcome.Done?)
    ensures outcome.Done? && Take(Step.Stop) !in trace ==> !t.stop
    ensures outcome.Done? && script == [] && s.handOverEmpty ==> t.queue == [] && t.executed == s.executed + s.queue
  {
    hide Plays, Reached, RunPlan, OrdinaryScript, Room, RunsInTurns, Legal, StepsOf;
    RunPlanInTurns(s, script, from, trace, outcome, t, to);
    forall d: nat | OrdinaryScript(script, d) && Room(s, CallsIn(script), d) ensures !outcome.Blocked? {
      RoomForRun(s, script, d);
      LegalPlanIsNotBlocked(s, from, RunPlan(s, script), trace, outcome, t, to);
    }
    if outcome.Done? {
      if Take(Step.Stop) !in trace { RunIsNotStopped(s, script, from, trace, t, to); }
      if script == [] && s.handOverEmpty { IdleRunExecutesAll(s, from, trace, t, to); }
    }
  }

  lemma PlaysTurn(s: State, from: Kind, turn: Turn, trace: seq<Move>, outcome: Outcome, t: State, to: Kind)
    requires s.queue != [] && Plays(s, from, TurnPlan(s, turn), trace, outcome, t, to)
    ensures exists moves :: IsTurn(s, turn, moves) && trace <= moves && (outcome.Done? ==> trace == moves)
  {
    PlanIsTurn(s, turn);
    FollowsPlan(s, from, TurnPlan(s, turn), trace, outcome, t, to);
  }

  lemma AllDestroyed(s: State)
    requires Reached(s) && s.destroyEvents == []
    ensures Among(s.destroyed, s.destroyScheduled)
    ensures multiset(s.destroyScheduled) == multiset(s.destroyed) + multiset(s.destroyRemoved)
  {
    ReachedInvariant(s);
    assert s.destroyed + [] == s.destroyed;
  }

  lemma ChangeTrapIsSpread(s: State, n: nat)
    requires Reached(s)
    ensures EmptyingTraps(s.queue, 0, n) || FillingTraps(s.queue, 0, 2) ==> Spread(s.queue)
  {
    QueueBounds(s);
    if EmptyingTraps(s.queue, 0, n) { MoveTrapIsSpread(s.queue, 0, n); }
    if FillingTraps(s.queue, 0, 2) { MoveTrapIsSpread(s.queue, 0, 2); }
  }

  /** Whether the drain can go on, and what one delivery does. */
  lemma DeliveryKeeps(s: State)
    requires Enabled(s, DrainOne)
    ensures var t := Apply(s, DrainOne);
      t.drained == s.drained[1..] && t.handOver == s.handOver && t.executed == s.executed && t.stop == s.stop
  {
  }

  lemma FlagIsRight(s: State)
    requires Reached(s)
    ensures s.handOverEmpty ==> s.handOver == []
  {
    ReachedInvariant(s);
  }

  lemma CanSwap(s: State)
    requires Reached(s) && s.drained == [] && !s.handOverEmpty
    ensures Enabled(s, Swap) && Apply(s, Swap).drained == s.handOver
  {
    QueueBounds(s);
  }

  lemma CanProcess(s: State)
    requires Reached(s) && s.drained == [] && s.queue != []
    ensures Enabled(s, ProcessOne)
    ensures var t := Apply(s, ProcessOne); t.drained == [] && t.cancelled == s.cancelled
  {
    QueueBounds(s);
  }

  /** The first occurrence of the id is gone, if there was one, and nothing else. */
  ghost predicate FirstErased(ids: seq<EventId>, id: EventId, left: seq<EventId>)
  {
    if id in ids then exists i :: 0 <= i < |ids| && ids[i] == id && id !in ids[..i] && left == ids[..i] + ids[i + 1..]
    else left == ids
  }

  class DefaultSimulatorImpl {
    var events: Scheduler
    var uid: u32
    var currentUid: u32
    var currentTs: u64
    var currentContext: u32
    var unscheduled: int
    var stop: bool
    var eventsWithContext: seq<Pending>
    var eventsWithContextEmpty: bool
    var destroyEvents: seq<EventId>
    var cancelled: set<nat>   // the cancel marks of the event implementations
    var issued: set<EventId>  // the ids handed out so far
    ghost var model: State    // the state of the machine, with its history

    /** The fields are those of the machine's state. */
    ghost predicate Tracks()
      reads this, events.Repr()
    {
      && events.Queue() == model.queue && uid == model.uid && currentUid == model.currentUid
      && currentTs == model.currentTs && currentContext == model.currentContext
      && unscheduled == model.unscheduled && stop == model.stop
      && eventsWithContext == model.handOver && eventsWithContextEmpty == model.handOverEmpty
      && destroyEvents == model.destroyEvents && cancelled == model.cancelled && issued == model.issued
    }

    /** The machine is in a state some run leads to, and the scheduler takes events from now on. */
    ghost predicate Valid()
      reads this, events.Repr()
    {
      this !in events.Repr() && events.Valid() && events.Floor() <= currentTs && Tracks() && Reached(model)
    }

    constructor ()
      ensures Valid() && fresh(events.Repr()) && model == INITIAL && events.Kind() == ListKind && events.Queue() == []
      ensures uid == 4 && currentUid == 0 && currentTs == 0 && currentContext == 0xffff_ffff && unscheduled == 0 && !stop
      ensures eventsWithContext == [] && eventsWithContextEmpty && destroyEvents == [] && cancelled == {} && issued == {}
    {
      var list := new L.ListScheduler();
      events := UseList(list);
      uid, currentUid, currentTs, currentContext := FIRST_UID, 0, 0, NO_CONTEXT;
      unscheduled, stop := 0, false;
      eventsWithContext, eventsWithContextEmpty := [], true;
      destroyEvents, cancelled, issued := [], {}, {};
      model := INITIAL;
      InitialReached();
    }

    /** Whether the scheduler fails when the machine takes the step. */
    ghost predicate StepTraps(step: Step)
      requires Enabled(model, step)
      reads this, events.Repr()
    {
      if Inserts(step) then events.InsertTraps(NewOf(model, step))
      else if step.ProcessOne? then events.RemoveNextTraps()
      else step.Remove? && step.id.uid != DESTROY_UID && !SimulatorRuns.IsExpired(model, step.id)
           && events.RemoveTraps(EventOf(step.id))
    }

    /** A step fails only on a calendar, where it meets a width of zero, or when it removes an event from a heap. */
    lemma TrapsIsExplained(step: Step)
      requires Valid() && Enabled(model, step) && StepTraps(step)
      ensures Breaks(Take(step), if events.UseHeap? then Misfit else ZeroWidth, Apply(model, step), events.Kind())
    {
      hide Inserted, Without, EventList, CalendarLists.SampledWidth, Reached, Misfits, SimulatorRuns.IsExpired;
    }

    /** Gives the new event the next unique id and puts it in the queue. */
    method Enqueue(ts: u64, context: u32, impl: nat) returns (ev: Event, ok: bool)
      requires this !in events.Repr() && events.Valid() && events.Floor() <= ts <= MAX_TIME && uid + 1 < B32
      requires FreshUid(events.Queue(), Event(impl, Key(ts, uid, context))) && |events.Queue()| + 1 < B32
      modifies this`uid, this`unscheduled, events.Repr()
      ensures fresh(events.Repr() - old(events.Repr())) && this !in events.Repr()
      ensures ev == Event(impl, Key(ts, old(uid), context))
      ensures uid == old(uid) + 1 && unscheduled == old(unscheduled) + 1
      ensures ok ==> events.Valid() && events.Queue() == Inserted(old(events.Queue()), ev) && events.Floor() == old(events.Floor())
      ensures !ok <==> old(events.InsertTraps(Event(impl, Key(ts, uid, context))))
    {
      ev := Event(impl, Key(ts, uid, context));
      uid := uid + 1;
      unscheduled := unscheduled + 1;
      ok := events.Insert(ev);
    }

    method Schedule(delay: int, impl: nat) returns (id: EventId, ok: bool)
      requires Valid() && Enabled(model, Step.Schedule(delay, impl))
      modifies this`uid, this`unscheduled, this`issued, this`model, events.Repr()
      ensures fresh(events.Repr() - old(events.Repr()))
      ensures model == Apply(old(model), Step.Schedule(delay, impl)) && (!ok || Valid())
      ensures 0 <= currentTs + delay < B64 && id == EventId(impl, currentTs + delay, currentContext, old(uid))
      ensures ok ==> events.Queue() == Inserted(old(events.Queue()), Event(impl, Key(currentTs + delay, old(uid), currentContext)))
      ensures uid == old(uid) + 1 && unscheduled == old(unscheduled) + 1 && issued == old(issued) + {id}
      ensures !ok <==> old(StepTraps(Step.Schedule(delay, impl)))
    {
      hide Scheduler.Valid, Scheduler.InsertTraps, EventList, Reached, Inserted, FreshUid;
      InsertReached(model, Step.Schedule(delay, impl));
      id := EventId(impl, currentTs + delay, currentContext, uid);
      issued := issued + {id};
      model := Apply(model, Step.Schedule(delay, impl));
      var ev;
      ev, ok := Enqueue(currentTs + delay, currentContext, impl);
    }

    method ScheduleNow(impl: nat) returns (id: EventId, ok: bool)
      requires Valid() && Enabled(model, Step.ScheduleNow(impl))
      modifies this`uid, this`unscheduled, this`issued, this`model, events.Repr()
      ensures fresh(events.Repr() - old(events.Repr()))
      ensures model == Apply(old(model), Step.ScheduleNow(impl)) && (!ok || Valid())
      ensures id == EventId(impl, currentTs, currentContext, old(uid))
      ensures ok ==> events.Queue() == Inserted(old(events.Queue()), Event(impl, Key(currentTs, old(uid), currentContext)))
      ensures uid == old(uid) + 1 && unscheduled == old(unscheduled) + 1 && issued == old(issued) + {id}
      ensures !ok <==> old(StepTraps(Step.ScheduleNow(impl)))
    {
      hide Scheduler.Valid, Scheduler.InsertTraps, EventList, Reached, Inserted, FreshUid;
      InsertReached(model, Step.ScheduleNow(impl));
      id := EventId(impl, currentTs, currentContext, uid);
      issued := issued + {id};
      model := Apply(model, Step.ScheduleNow(impl));
      var ev;
      ev, ok := Enqueue(currentTs, currentContext, impl);
    }

    /** On the main thread; the other threads' branch is HandOver. */
    method ScheduleWithContext(context: u32, delay: int, impl: nat) returns (ok: bool)
      requires Valid() && Enabled(model, Step.ScheduleWithContext(context, delay, impl))
      modifies this`uid, this`unscheduled, this`model, events.Repr()
      ensures fresh(events.Repr() - old(events.Repr()))
      ensures model == Apply(old(model), Step.ScheduleWithContext(context, delay, impl)) && (!ok || Valid())
      ensures 0 <= currentTs + delay < B64
      ensures ok ==> events.Queue() == Inserted(old(events.Queue()), Event(impl, Key(currentTs + delay, old(uid), context)))
      ensures uid == old(uid) + 1 && unscheduled == old(unscheduled) + 1
      ensures !ok <==> old(StepTraps(Step.ScheduleWithContext(context, delay, impl)))
    {
      hide Scheduler.Valid, Scheduler.InsertTraps, EventList, Reached, Inserted, FreshUid;
      InsertReached(model, Step.ScheduleWithContext(context, delay, impl));
      model := Apply(model, Step.ScheduleWithContext(context, delay, impl));
      var ev;
      ev, ok := Enqueue(currentTs + delay, context, impl);
    }

    /** The critical section of another thread. */
    method HandOver(context: u32, delay: int, impl: nat)
      requires Valid() && Enabled(model, Step.HandOver(context, delay, impl))
      modifies this`eventsWithContext, this`eventsWithContextEmpty, this`model
      ensures Valid() && model == Apply(old(model), Step.HandOver(context, delay, impl))
      ensures 0 <= delay < B64 && eventsWithContext == old(eventsWithContext) + [Pending(impl, context, delay)] && !eventsWithContextEmpty
    {
      hide Scheduler.Valid, Reached;
      StepReached(model, Step.HandOver(context, delay, impl));
      eventsWithContext := eventsWithContext + [Pending(impl, context, delay)];
      eventsWithContextEmpty := false;
      model := Apply(model, Step.HandOver(context, delay, impl));
    }

    method ScheduleDestroy(impl: nat) returns (id: EventId)
      requires Valid() && Enabled(model, Step.ScheduleDestroy(impl))
      modifies this`destroyEvents, this`uid, this`issued, this`model
      ensures Valid() && model == Apply(old(model), Step.ScheduleDestroy(impl))
      ensures id == EventId(impl, currentTs, 0xffff_ffff, 2) && destroyEvents == old(destroyEvents) + [id]
      ensures uid == old(uid) + 1 && issued == old(issued) + {id}
    {
      hide Scheduler.Valid, Reached;
      StepReached(model, Step.ScheduleDestroy(impl));
      id := EventId(impl, currentTs, NO_CONTEXT, DESTROY_UID);
      destroyEvents := destroyEvents + [id];
      uid := uid + 1;
      issued := issued + {id};
      model := Apply(model, Step.ScheduleDestroy(impl));
    }

    method IsExpired(id: EventId) returns (expired: bool)
      requires Tracks()
      ensures expired == SimulatorRuns.IsExpired(model, id)
    {
      if id.uid == DESTROY_UID {
        if id.impl == 0 || id.impl in cancelled { return true; }
        for i := 0 to |destroyEvents|
          invariant id !in destroyEvents[..i]
        {
          if destroyEvents[i] == id { return false; }
          assert destroyEvents[..i + 1] == destroyEvents[..i] + [destroyEvents[i]];
        }
        assert destroyEvents[..|destroyEvents|] == destroyEvents;
        return true;
      }
      return id.impl == 0 || id.ts < currentTs || (id.ts == currentTs && id.uid <= currentUid) || id.impl in cancelled;
    }

    method Cancel(id: EventId)
      requires Valid() && Enabled(model, Step.Cancel(id))
      modifies this`cancelled, this`model
      ensures Valid() && model == Apply(old(model), Step.Cancel(id))
      ensures SimulatorRuns.IsExpired(model, id)
      ensures cancelled == old(cancelled) + if old(SimulatorRuns.IsExpired(model, id)) then {} else {id.impl}
    {
      hide Scheduler.Valid, Reached, SimulatorRuns.IsExpired;
      RunHistories.CancelIs(model, id);
      StepReached(model, Step.Cancel(id));
      var expired := IsExpired(id);
      if !expired { cancelled := cancelled + {id.impl}; }
      model := Apply(model, Step.Cancel(id));
    }

    /** Takes the first destroy event with the id out of the list. */
    method EraseDestroyEvent(id: EventId)
      modifies this`destroyEvents
      ensures destroyEvents == WithoutId(old(destroyEvents), id) && FirstErased(old(destroyEvents), id, destroyEvents)
    {
      for i := 0 to |destroyEvents|
        invariant destroyEvents == old(destroyEvents) && id !in destroyEvents[..i]
      {
        if destroyEvents[i] == id {
          WithoutIdAt(destroyEvents, id, i);
          destroyEvents := destroyEvents[..i] + destroyEvents[i + 1..];
          return;
        }
        assert destroyEvents[..i + 1] == destroyEvents[..i] + [destroyEvents[i]];
      }
      assert destroyEvents[..|destroyEvents|] == destroyEvents;
      WithoutIdAbsent(destroyEvents, id);
    }

    /** Takes an event that has not expired out of the queue and cancels it. */
    method RemoveQueued(id: EventId) returns (ok: bool)
      requires Valid() && Enabled(model, Step.Remove(id))
      requires id.uid != DESTROY_UID && !SimulatorRuns.IsExpired(model, id)
      modifies this`unscheduled, this`cancelled, this`model, events.Repr()
      ensures fresh(events.Repr() - old(events.Repr()))
      ensures model == Apply(old(model), Step.Remove(id)) && (!ok || Valid())
      ensures EventOf(id) in old(events.Queue()) && (ok ==> events.Queue() == Without(old(events.Queue()), id.uid))
      ensures cancelled == old(cancelled) + {id.impl} && unscheduled == old(unscheduled) - 1
      ensures !ok <==> old(StepTraps(Step.Remove(id)))
    {
      hide Scheduler.Valid, Scheduler.Queue, Scheduler.Floor, Scheduler.RemoveTraps, EventList, Reached, Without, SimulatorRuns.IsExpired, Enabled;
      StepReached(model, Step.Remove(id));
      RemovedIsQueued(model, id);
      model := Apply(model, Step.Remove(id));
      cancelled := cancelled + {id.impl};
      unscheduled := unscheduled - 1;
      ok := events.Remove(EventOf(id));
    }

    method Remove(id: EventId) returns (ok: bool)
      requires Valid() && Enabled(model, Step.Remove(id))
      modifies this`unscheduled, this`cancelled, this`destroyEvents, this`model, events.Repr()
      ensures fresh(events.Repr() - old(events.Repr()))
      ensures model == Apply(old(model), Step.Remove(id)) && (!ok || Valid())
      ensures id.uid == DESTROY_UID ==> ok && FirstErased(old(destroyEvents), id, destroyEvents)
      ensures id.uid != DESTROY_UID ==> destroyEvents == old(destroyEvents)
      ensures var taken := id.uid != DESTROY_UID && !old(SimulatorRuns.IsExpired(model, id));
        && cancelled == old(cancelled) + (if taken then {id.impl} else {})
        && unscheduled == old(unscheduled) - (if taken then 1 else 0)
        && (taken ==> EventOf(id) in old(events.Queue()))
        && (ok ==> events.Queue() == if taken then Without(old(events.Queue()), id.uid) else old(events.Queue()))
      ensures !ok <==> old(StepTraps(Step.Remove(id)))
    {
      hide Scheduler.Valid, Scheduler.RemoveTraps, Reached, WithoutId, SimulatorRuns.IsExpired, Enabled;
      ok := true;
      if id.uid == DESTROY_UID {
        StepReached(model, Step.Remove(id));
        EraseDestroyEvent(id);
        model := Apply(model, Step.Remove(id));
        return;
      }
      var expired := IsExpired(id);
      if expired { return; }
      ok := RemoveQueued(id);
    }

    method Stop()
      requires Valid() && Enabled(model, Step.Stop)
      modifies this`stop, this`model
      ensures Valid() && model == Apply(old(model), Step.Stop) && stop
    {
      hide Scheduler.Valid, Reached;
      StepReached(model, Step.Stop);
      stop := true;
      model := Apply(model, Step.Stop);
    }

    method Admits(call: Call) returns (admits: bool)
      requires Tracks() && model.drained == []
      ensures admits <==> Enabled(model, call)
    {
      match call {
        case Schedule(delay, impl) => admits := impl != 0 && uid + 1 < B32 && 0 <= delay <= MAX_TIME - currentTs;
        case ScheduleNow(impl) => admits := impl != 0 && uid + 1 < B32;
        case ScheduleWithContext(_, delay, impl) => admits := impl != 0 && uid + 1 < B32 && 0 <= delay <= MAX_TIME - currentTs;
        case HandOver(_, delay, impl) => admits := impl != 0 && 0 <= delay <= MAX_TIME;
        case ScheduleDestroy(_) => admits := uid + 1 < B32;
        case Remove(id) =>
          var expired := IsExpired(id);
          admits := id.uid == DESTROY_UID || id in issued || expired;
        case _ => admits := true;
      }
      admits := admits && currentTs <= MAX_TIME;
    }

    method Execute(call: Call) returns (ok: bool)
      requires Valid() && Enabled(model, call)
      modifies this, events.Repr()
      ensures events == old(events) && fresh(events.Repr() - old(events.Repr()))
      ensures model == Apply(old(model), call) && (!ok || Valid())
      ensures !ok <==> old(StepTraps(call))
    {
      hide Scheduler.Valid, Tracks, Reached, Enabled, Apply, NewOf, Scheduler.InsertTraps, Scheduler.RemoveTraps;
      ok := true;
      match call
      case Schedule(delay, impl) => var id; id, ok := Schedule(delay, impl);
      case ScheduleNow(impl) => var id; id, ok := ScheduleNow(impl);
      case ScheduleWithContext(context, delay, impl) => ok := ScheduleWithContext(context, delay, impl);
      case HandOver(context, delay, impl) => HandOver(context, delay, impl);
      case ScheduleDestroy(impl) => var id := ScheduleDestroy(impl);
      case Cancel(id) => Cancel(id);
      case Remove(id) => ok := Remove(id);
      case Stop => Stop();
    }

    static method NewScheduler(kind: Kind) returns (scheduler: Scheduler)
      ensures fresh(scheduler.Repr()) && scheduler.Valid() && scheduler.Queue() == [] && scheduler.Floor() == 0
      ensures scheduler.Kind() == kind && (scheduler.UseCalendar? ==> scheduler.Days() == 2)
    {
      match kind
      case ListKind =>
        var list := new L.ListScheduler();
        scheduler := UseList(list);
      case HeapKind =>
        var heap := new H.HeapScheduler();
        scheduler := UseHeap(heap);
      case CalendarKind =>
        var calendar := new C.CalendarScheduler();
        scheduler := UseCalendar(calendar);
    }

    /** Moves the next of all the events, the first k of which have been moved, to another scheduler. */
    method MoveNext(scheduler: Scheduler, ghost all: seq<Event>, ghost k: nat) returns (ok: bool)
      requires events.Valid() && scheduler.Valid() && scheduler.Repr() !! events.Repr() && this !in events.Repr() + scheduler.Repr()
      requires EventList(all) && |all| + 1 < B32 && k < |all| && all[k].key.ts <= MAX_TIME && scheduler.Floor() == 0
      requires events.Queue() == all[k..] && scheduler.Queue() == all[..k]
      modifies events.Repr(), scheduler.Repr()
      ensures fresh(events.Repr() - old(events.Repr())) && fresh(scheduler.Repr() - old(scheduler.Repr()))
      ensures scheduler.Repr() !! events.Repr()
      ensures ok ==> events.Valid() && scheduler.Valid() && scheduler.Floor() == 0
      ensures ok ==> events.Queue() == all[k + 1..] && scheduler.Queue() == all[..k + 1]
      ensures !ok <==> (events.UseCalendar? && ShrinkTraps(all[k + 1..], old(events.Days())))
                       || (scheduler.UseCalendar? && GrowthTraps(all[..k + 1], old(scheduler.Days())))
      ensures ok && events.UseCalendar? ==> events.Days() == C.DaysAfterRemove(|all| - k - 1, old(events.Days()))
      ensures ok && scheduler.UseCalendar? ==> scheduler.Days() == C.DaysAfterInsert(k + 1, old(scheduler.Days()))
    {
      Appended(all, k);
      TrapsAre(events, scheduler, all, k);
      hide Scheduler.Valid, Scheduler.Queue, Scheduler.Floor, Scheduler.Days, EventList, FreshUid, Inserted,
        Scheduler.InsertTraps, Scheduler.RemoveNextTraps, GrowthTraps, ShrinkTraps;
      var next;
      next, ok := events.RemoveNext();
      if ok { ok := scheduler.Insert(next); }
    }

    method MoveAll(scheduler: Scheduler, ghost all: seq<Event>) returns (ok: bool)
      requires events.Valid() && scheduler.Valid() && scheduler.Repr() !! events.Repr() && this !in events.Repr() + scheduler.Repr()
      requires EventList(all) && |all| + 1 < B32 && scheduler.Floor() == 0
      requires forall k :: 0 <= k < |all| ==> all[k].key.ts <= MAX_TIME
      requires events.Queue() == all && scheduler.Queue() == []
      modifies events.Repr(), scheduler.Repr()
      ensures fresh(events.Repr() - old(events.Repr())) && fresh(scheduler.Repr() - old(scheduler.Repr()))
      ensures ok ==> scheduler.Valid() && scheduler.Floor() == 0 && scheduler.Queue() == all
      ensures !ok <==> (events.UseCalendar? && EmptyingTraps(all, 0, old(events.Days())))
                       || (scheduler.UseCalendar? && FillingTraps(all, 0, old(scheduler.Days())))
    {
      hide Scheduler.Valid, Scheduler.Queue, Scheduler.Floor, Scheduler.Days, EventList, GrowthTraps, ShrinkTraps,
        C.DaysAfterRemove, C.DaysAfterInsert;
      ghost var k := 0;
      var empty := events.IsEmpty();
      while !empty
        invariant k <= |all| && (empty <==> k == |all|)
        invariant events.Valid() && events.Queue() == all[k..]
        invariant scheduler.Valid() && scheduler.Queue() == all[..k] && scheduler.Floor() == 0
        invariant fresh(scheduler.Repr() - old(scheduler.Repr())) && fresh(events.Repr() - old(events.Repr()))
        invariant scheduler.Repr() !! events.Repr()
        invariant events.UseCalendar? ==> EmptyingTraps(all, 0, old(events.Days())) == EmptyingTraps(all, k, events.Days())
        invariant scheduler.UseCalendar? ==> FillingTraps(all, 0, old(scheduler.Days())) == FillingTraps(all, k, scheduler.Days())
        decreases |all| - k
      {
        ok := MoveNext(scheduler, all, k);
        if !ok { return; }
        k := k + 1;
        empty := events.IsEmpty();
      }
      ok := true;
    }

    /**
     A new scheduler of the kind takes over all events, in order.  The change fails just when emptying a calendar
     or filling one, each from the days it has, meets a width of zero.
     */
    method SetScheduler(kind: Kind) returns (ok: bool)
      requires Valid()
      modifies this`events, events.Repr()
      ensures fresh(events.Repr() - old(events.Repr())) && (!ok || Valid())
      ensures events.Kind() == if ok then kind else old(events.Kind())
      ensures !ok <==> (old(events.UseCalendar?) && EmptyingTraps(model.queue, 0, old(events.Days())))
                       || (kind == CalendarKind && FillingTraps(model.queue, 0, 2))
      ensures !ok ==> Spread(model.queue)
    {
      hide Scheduler.Valid, Scheduler.Queue, Scheduler.Floor, Scheduler.Days, EventList, Reached, EmptyingTraps, FillingTraps, Spread;
      QueueBounds(model);
      ChangeTrapIsSpread(model, events.Days());
      var scheduler := NewScheduler(kind);
      ok := MoveAll(scheduler, events.Queue());
      if ok { events := scheduler; }
    }

    // ---------- events from other threads ----------

    /** Takes over the hand-over list, in a critical section. */
    method TakeOver() returns (mine: seq<Pending>)
      requires Valid() && Enabled(model, Swap)
      modifies this`eventsWithContext, this`eventsWithContextEmpty, this`model
      ensures Valid() && model == Apply(old(model), Swap) && mine == model.drained
      ensures mine == old(eventsWithContext) && eventsWithContext == [] && eventsWithContextEmpty
    {
      hide Scheduler.Valid, Reached;
      StepReached(model, Swap);
      mine := eventsWithContext;
      eventsWithContext := [];
      eventsWithContextEmpty := true;
      model := Apply(model, Swap);
    }

    /** Queues an event that another thread handed over, at its delay from now. */
    method Deliver(p: Pending) returns (ok: bool)
      requires Valid() && Enabled(model, DrainOne) && p == model.drained[0]
      modifies this`uid, this`unscheduled, this`model, events.Repr()
      ensures fresh(events.Repr() - old(events.Repr()))
      ensures model == Apply(old(model), DrainOne) && (!ok || Valid())
      ensures 0 <= currentTs + p.delay < B64
      ensures ok ==> events.Queue() == Inserted(old(events.Queue()), Event(p.impl, Key(currentTs + p.delay, old(uid), p.context)))
      ensures uid == old(uid) + 1 && unscheduled == old(unscheduled) + 1
      ensures !ok <==> old(StepTraps(DrainOne))
    {
      hide Scheduler.Valid, Scheduler.InsertTraps, EventList, Reached, Inserted, FreshUid;
      InsertReached(model, DrainOne);
      model := Apply(model, DrainOne);
      var ev;
      ev, ok := Enqueue(currentTs + p.delay, p.context, p.impl);
    }

    method ProcessEventsWithContext() returns (outcome: Outcome, ghost trace: seq<Move>)
      requires Valid() && model.drained == []
      modifies this, events.Repr()
      ensures events == old(events) && fresh(events.Repr() - old(events.Repr()))
      ensures Plays(old(model), events.Kind(), DrainPlan(old(model)), trace, outcome, model, events.Kind())
      ensures outcome.Done? ==> Valid() && model.drained == [] && model.handOver == []
    {
      hide Scheduler.Valid, Reached, Enabled, Apply, Plays, StepTraps;
      ghost var s, kind := model, events.Kind();
      trace := [];
      PlaysNothing(s, kind);
      FlagIsRight(model);
      if eventsWithContextEmpty { return Done, trace; }
      CanSwap(model);
      PlaysStep(model, kind, Swap);
      var mine := TakeOver();
      trace := [Take(Swap)];
      while mine != []
        invariant events == old(events) && fresh(events.Repr() - old(events.Repr()))
        invariant Valid() && mine == model.drained && model.handOver == [] && Plays(s, kind, trace, trace, Done, model, kind)
        invariant DrainPlan(s) == trace + Drains(|mine|)
        decreases |mine|
      {
        ghost var before, more, rest := model, [], Drains(|mine| - 1);
        assert Drains(|mine|) == [Take(DrainOne)] + rest;
        var p := mine[0];
        mine := mine[1..];
        outcome, more := DeliverNext(p);
        PlaysMore(s, kind, trace, before, kind, [Take(DrainOne)], more, outcome, model, kind);
        assert trace + [Take(DrainOne)] + rest == DrainPlan(s);
        if !outcome.Done? {
          PlaysPart(s, kind, trace + [Take(DrainOne)], rest, trace + more, outcome, model, kind);
          trace := trace + more;
          return;
        }
        AllPlayed(before, kind, [Take(DrainOne)], more, model, kind);
        trace := trace + more;
      }
      assert trace + Drains(0) == trace;
      outcome := Done;
    }

    /** One pass of the drain, unless unique ids or time have run out. */
    method DeliverNext(p: Pending) returns (outcome: Outcome, ghost trace: seq<Move>)
      requires Valid() && model.drained != [] && p == model.drained[0]
      modifies this, events.Repr()
      ensures events == old(events) && fresh(events.Repr() - old(events.Repr()))
      ensures Plays(old(model), events.Kind(), [Take(DrainOne)], trace, outcome, model, events.Kind())
      ensures outcome.Done? ==> Valid() && model.drained == old(model.drained)[1..] && model.handOver == old(model.handOver)
    {
      hide Scheduler.Valid, EventList, Reached, NewEvent, StepTraps, Plays, Breaks, Apply;
      QueueBounds(model);
      ghost var kind := events.Kind();
      if !(uid + 1 < B32 && currentTs + p.delay <= MAX_TIME) {
        StepIsBlocked(model, kind, DrainOne);
        return Blocked(DrainOne), [];
      }
      PlaysStep(model, kind, DrainOne);
      DeliveryKeeps(model);
      if StepTraps(DrainOne) {
        TrapsIsExplained(DrainOne);
        BreaksAsInsert(DrainOne, Apply(model, DrainOne), kind);
        StepFails(model, kind, DrainOne, ZeroWidth);
      }
      var ok := Deliver(p);
      trace := [Take(DrainOne)];
      outcome := if ok then Done else Failed(ZeroWidth);
    }

    // ---------- the main loop ----------

    method Perform(action: Action) returns (outcome: Outcome, ghost trace: seq<Move>)
      requires Valid() && model.drained == []
      modifies this, events.Repr()
      ensures fresh(events.Repr() - old(events.Repr()))
      ensures Plays(old(model), old(events.Kind()), [MoveOf(action)], trace, outcome, model, events.Kind())
      ensures outcome.Blocked? ==> action.Do? && Refused(old(model), action.call)
      ensures outcome.Done? ==> Valid() && model.drained == []
    {
      hide Scheduler.Valid, Tracks, Reached, Enabled, Apply, StepTraps, Plays, Breaks;
      ghost var from := events.Kind();
      match action
      case Do(call) =>
        var admits := Admits(call);
        if !admits {
          StepIsBlocked(model, from, call);
          NotEnabledIsRefused(model, call);
          return Blocked(call), [];
        }
        CallKeeps(model, call);
        PlaysStep(model, from, call);
        ghost var cause := if events.UseHeap? then Misfit else ZeroWidth;
        if StepTraps(call) {
          TrapsIsExplained(call);
          StepFails(model, from, call, cause);
        }
        trace := [Take(call)];
        var ok := Execute(call);
        outcome := if ok then Done else Failed(if events.UseHeap? then Misfit else ZeroWidth);
      case ChangeScheduler(kind) =>
        ghost var days := events.Days();
        trace := [Switch(kind)];
        var ok := SetScheduler(kind);
        if !ok {
          ChangeBreaks(model, from, kind, days);
          SwitchFails(model, from, kind);
          return Failed(ZeroWidth), trace;
        }
        PlaysSwitch(model, from, kind);
        outcome := Done;
    }

    method Handle(handler: seq<Action>) returns (outcome: Outcome, ghost trace: seq<Move>)
      requires Valid() && model.drained == []
      modifies this, events.Repr()
      ensures fresh(events.Repr() - old(events.Repr()))
      ensures Plays(old(model), old(events.Kind()), MovesOf(handler), trace, outcome, model, events.Kind())
      ensures outcome.Done? ==> Valid() && model.drained == []
    {
      hide Scheduler.Valid, Tracks, Reached, Plays;
      ghost var s, from, plan := model, events.Kind(), MovesOf(handler);
      trace := [];
      PlaysNothing(s, from);
      for i := 0 to |handler|
        invariant fresh(events.Repr() - old(events.Repr()))
        invariant Valid() && model.drained == []
        invariant trace == plan[..i] && Plays(s, from, trace, trace, Done, model, events.Kind())
      {
        ghost var before, kind, more, move := model, events.Kind(), [], [plan[i]];
        outcome, more := Perform(handler[i]);
        PlaysMore(s, from, trace, before, kind, move, more, outcome, model, events.Kind());
        assert plan == trace + move + plan[i + 1..];
        if !outcome.Done? {
          PlaysPart(s, from, trace + move, plan[i + 1..], trace + more, outcome, model, events.Kind());
          trace := trace + more;
          return;
        }
        AllPlayed(before, kind, move, more, model, events.Kind());
        trace := trace + more;
      }
      assert plan[..|handler|] == plan;
      outcome := Done;
    }

    /** The events that other threads hand over meanwhile. */
    method HandOverAll(others: seq<Pending>) returns (outcome: Outcome, ghost trace: seq<Move>)
      requires Valid() && model.drained == []
      modifies this`eventsWithContext, this`eventsWithContextEmpty, this`model
      ensures Plays(old(model), events.Kind(), HandOversOf(others), trace, outcome, model, events.Kind())
      ensures outcome.Done? ==> Valid() && model.drained == []
    {
      hide Scheduler.Valid, Tracks, Reached, Plays, Enabled, Apply;
      ghost var s, kind, plan := model, events.Kind(), HandOversOf(others);
      trace := [];
      PlaysNothing(s, kind);
      for i := 0 to |others|
        invariant Valid() && model.drained == []
        invariant trace == plan[..i] && Plays(s, kind, trace, trace, Done, model, kind)
      {
        var p := others[i];
        ghost var step, move := HandOverOf(p), [plan[i]];
        assert plan == trace + move + plan[i + 1..];
        var admits := Admits(Step.HandOver(p.context, p.delay, p.impl));
        if !admits {
          StepIsBlocked(model, kind, step);
          PlaysMore(s, kind, trace, model, kind, move, [], Blocked(step), model, kind);
          PlaysPart(s, kind, trace + move, plan[i + 1..], trace + [], Blocked(step), model, kind);
          return Blocked(Step.HandOver(p.context, p.delay, p.impl)), trace + [];
        }
        PlaysStep(model, kind, step);
        CallKeeps(model, step);
        PlaysMore(s, kind, trace, model, kind, move, move, Done, Apply(model, step), kind);
        trace := trace + move;
        HandOver(p.context, p.delay, p.impl);
      }
      assert plan[..|others|] == plan;
      outcome := Done;
    }

    /** The event becomes the current one. */
    method MoveTo(next: Event)
      requires next.key.ts >= currentTs
      modifies this`unscheduled, this`currentTs, this`currentContext, this`currentUid
      ensures unscheduled == old(unscheduled) - 1
      ensures currentTs == next.key.ts && currentContext == next.key.context && currentUid == next.key.uid
    {
      unscheduled := unscheduled - 1;
      currentTs := next.key.ts;
      currentContext := next.key.context;
      currentUid := next.key.uid;
    }

    /** Takes the next event off the queue; time does not go back. */
    method TakeNext() returns (next: Event, ok: bool)
      requires Valid() && Enabled(model, ProcessOne)
      modifies this`unscheduled, this`currentTs, this`currentContext, this`currentUid, this`model, events.Repr()
      ensures fresh(events.Repr() - old(events.Repr()))
      ensures model == Apply(old(model), ProcessOne) && (!ok || Valid())
      ensures next == old(model.queue)[0] && old(currentTs) <= next.key.ts
      ensures ok ==> old(events.Queue()) == [next] + events.Queue()
      ensures currentTs == next.key.ts && currentContext == next.key.context && currentUid == next.key.uid
      ensures unscheduled == old(unscheduled) - 1
      ensures !ok <==> old(StepTraps(ProcessOne))
    {
      hide Scheduler.Valid, Scheduler.Queue, Scheduler.Floor, Scheduler.RemoveNextTraps, EventList, Reached, Enabled, Apply;
      NextIsTaken(model);
      StepReached(model, ProcessOne);
      model := Apply(model, ProcessOne);
      next, ok := events.RemoveNext();
      MoveTo(next);
    }

    /** Invokes the handler of an event, which does nothing when the event is cancelled. */
    method Invoke(ev: Event, handler: seq<Action>) returns (outcome: Outcome, ghost trace: seq<Move>)
      requires Valid() && model.drained == []
      modifies this, events.Repr()
      ensures fresh(events.Repr() - old(events.Repr()))
      ensures var plan := if ev.impl in old(model.cancelled) then [] else MovesOf(handler);
        Plays(old(model), old(events.Kind()), plan, trace, outcome, model, events.Kind())
      ensures outcome.Done? ==> Valid() && model.drained == []
    {
      hide Scheduler.Valid, Reached, Plays;
      if ev.impl in cancelled {
        PlaysNothing(model, events.Kind());
        return Done, [];
      }
      outcome, trace := Handle(handler);
    }

    /** Takes the next event off the queue and lets its handler and the other threads act. */
    method ProcessFront(turn: Turn) returns (outcome: Outcome, ghost trace: seq<Move>)
      requires Valid() && model.drained == [] && model.queue != []
      modifies this, events.Repr()
      ensures fresh(events.Repr() - old(events.Repr()))
      ensures Plays(old(model), old(events.Kind()), TurnFront(old(model), turn), trace, outcome, model, events.Kind())
      ensures outcome.Done? ==> Valid() && model.drained == []
    {
      hide Scheduler.Valid, Tracks, Reached, StepTraps, Enabled, Apply, Plays, Breaks;
      ghost var s, from := model, events.Kind();
      ghost var handling := if model.queue[0].impl in model.cancelled then [] else MovesOf(turn.handler);
      ghost var handingOver := HandOversOf(turn.others);
      CanProcess(model);
      PlaysStep(model, from, ProcessOne);
      if StepTraps(ProcessOne) {
        TrapsIsExplained(ProcessOne);
        BreaksAsRemoveNext(Apply(model, ProcessOne), from);
        StepFails(model, from, ProcessOne, ZeroWidth);
      }
      ghost var plan := [Take(ProcessOne)];
      assert plan + handling + handingOver == plan + (handling + handingOver) == TurnFront(s, turn);
      var next, ok := TakeNext();
      if !ok {
        PlaysPart(s, from, plan, handling + handingOver, plan, Failed(ZeroWidth), model, from);
        return Failed(ZeroWidth), plan;
      }
      ghost var before := model;
      outcome, trace := Invoke(next, turn.handler);
      PlaysMore(s, from, plan, before, from, handling, trace, outcome, model, events.Kind());
      if !outcome.Done? {
        PlaysPart(s, from, plan + handling, handingOver, plan + trace, outcome, model, events.Kind());
        return outcome, plan + trace;
      }
      AllPlayed(before, from, handling, trace, model, events.Kind());
      ghost var kind := events.Kind();
      before := model;
      outcome, trace := HandOverAll(turn.others);
      PlaysMore(s, from, plan + handling, before, kind, handingOver, trace, outcome, model, kind);
      trace := plan + handling + trace;
    }

    /** Takes the next event, invokes its handler unless it is cancelled, and drains the hand-over list. */
    method ProcessOneEvent(turn: Turn) returns (outcome: Outcome, ghost trace: seq<Move>)
      requires Valid() && model.drained == [] && model.queue != []
      modifies this, events.Repr()
      ensures fresh(events.Repr() - old(events.Repr()))
      ensures Plays(old(model), old(events.Kind()), TurnPlan(old(model), turn), trace, outcome, model, events.Kind())
      ensures exists moves :: IsTurn(old(model), turn, moves) && trace <= moves && (outcome.Done? ==> trace == moves)
      ensures old(model).queue[0].impl in old(model).cancelled ==>
        TurnPlan(old(model), turn) == TurnPlan(old(model), Turn([], turn.others))
      ensures outcome.Done? ==> Valid() && model.drained == [] && model.handOver == []
    {
      hide Scheduler.Valid, Tracks, Reached, Plays, TurnFront, DrainPlan;
      ghost var s, from, front := model, events.Kind(), TurnFront(model, turn);
      if s.queue[0].impl in s.cancelled { MarkedTurn(s, turn); }
      outcome, trace := ProcessFront(turn);
      ghost var mid, kind, more := model, events.Kind(), trace;
      if !outcome.Done? {
        PlaysPart(s, from, front, TurnRest(s, turn), trace, outcome, model, kind);
        PlaysTurn(s, from, turn, trace, outcome, model, kind);
        return;
      }
      AllPlayed(s, from, front, trace, mid, kind);
      LeadsTo(s, from, front, front, Done, mid, kind);
      outcome, more := ProcessEventsWithContext();
      PlaysMore(s, from, front, mid, kind, DrainPlan(mid), more, outcome, model, kind);
      trace := front + more;
      PlaysTurn(s, from, turn, trace, outcome, model, kind);
    }

    method ClearStop()
      requires Valid() && model.drained == []
      modifies this`stop, this`model
      ensures Enabled(old(model), Step.ClearStop) && Valid() && model == Apply(old(model), Step.ClearStop)
      ensures !stop && model.drained == [] && model.handOver == old(model.handOver) && model.queue == old(model.queue)
    {
      hide Scheduler.Valid, Reached;
      QueueBounds(model);
      StepReached(model, Step.ClearStop);
      stop := false;
      model := Apply(model, Step.ClearStop);
    }

    /** What a run does before its first event. */
    method StartRun() returns (outcome: Outcome, ghost trace: seq<Move>)
      requires Valid() && model.drained == []
      modifies this, events.Repr()
      ensures events == old(events) && fresh(events.Repr() - old(events.Repr()))
      ensures Plays(old(model), events.Kind(), StartPlan(old(model)), trace, outcome, model, events.Kind())
      ensures outcome.Done? ==> Valid() && model.drained == [] && model.handOver == [] && !stop
    {
      hide Scheduler.Valid, Tracks, Reached, Apply, Enabled, Plays, DrainPlan;
      ghost var s, kind := model, events.Kind();
      outcome, trace := ProcessEventsWithContext();
      if !outcome.Done? {
        PlaysPart(s, kind, DrainPlan(s), [Take(Step.ClearStop)], trace, outcome, model, kind);
        return;
      }
      AllPlayed(s, kind, DrainPlan(s), trace, model, kind);
      ghost var mid, last := model, [Take(Step.ClearStop)];
      ClearStop();
      PlaysStep(mid, kind, Step.ClearStop);
      PlaysMore(s, kind, DrainPlan(s), mid, kind, last, last, Done, model, kind);
      trace := DrainPlan(s) + last;
    }

    method IsFinished() returns (finished: bool)
      requires Valid()
      ensures finished <==> model.queue == [] || model.stop
    {
      hide Scheduler.Valid, Reached;
      var empty := events.IsEmpty();
      finished := empty || stop;
    }

    lemma CountsQueue()
      requires Valid()
      ensures unscheduled == |model.queue|
    {
      ReachedInvariant(model);
    }

    /** The loop of a run. */
    method ProcessAll(script: seq<Turn>) returns (outcome: Outcome, ghost trace: seq<Move>)
      requires Valid() && model.drained == [] && model.handOver == []
      modifies this, events.Repr()
      ensures fresh(events.Repr() - old(events.Repr()))
      ensures Plays(old(model), old(events.Kind()), ScriptPlan(old(model), script), trace, outcome, model, events.Kind())
      ensures outcome.Done? ==> Valid() && model.drained == [] && model.handOver == [] && (model.queue == [] || model.stop)
    {
      hide Scheduler.Valid, Tracks, Reached, Plays, ScriptPlan, TurnPlan, IsTurn, StepsOf, Legal, After;
      ghost var s, from := model, events.Kind();
      PlaysNothing(s, from);
      trace := [];
      var turns := script;
      var finished := IsFinished();
      assert trace + ScriptPlan(s, script) == ScriptPlan(s, script);
      while !finished
        invariant fresh(events.Repr() - old(events.Repr()))
        invariant Valid() && model.drained == [] && model.handOver == []
        invariant finished <==> model.queue == [] || model.stop
        invariant Plays(s, from, trace, trace, Done, model, events.Kind())
        invariant ScriptPlan(s, script) == trace + ScriptPlan(model, turns)
        decreases |turns|, |model.queue| + |model.handOver|
      {
        ghost var before, kind, more := model, events.Kind(), [];
        ghost var plan, rest := TurnPlan(model, FirstTurn(turns)), ScriptRest(model, turns);
        NextTurn(model, turns);
        assert ScriptPlan(s, script) == trace + plan + rest;
        var turn := FirstTurn(turns);
        outcome, more := ProcessOneEvent(turn);
        PlaysMore(s, from, trace, before, kind, plan, more, outcome, model, events.Kind());
        if !outcome.Done? {
          PlaysPart(s, from, trace + plan, rest, trace + more, outcome, model, events.Kind());
          trace := trace + more;
          return;
        }
        AllPlayed(before, kind, plan, more, model, events.Kind());
        LeadsTo(before, kind, plan, plan, Done, model, events.Kind());
        TurnShrinks(before, turns);
        trace := trace + more;
        turns := LaterTurns(turns);
        finished := IsFinished();
      }
      NoTurn(model, turns);
      assert trace + [] == trace;
      outcome := Done;
    }

    /**
     Executes events until none is left or a handler stops the run, each with its turn of the script and with
     idle turns once the script is over.  The moves made are exactly those of the plan, up to one that cannot be
     taken, for which ids or time must run short, or that makes the scheduler fail, which the promises of a script
     rule out.  Unless a handler calls Stop a run ends with an empty queue, also after an earlier stop.
     */
    method Run(script: seq<Turn>) returns (outcome: Outcome, ghost trace: seq<Move>)
      requires Valid() && model.drained == []
      modifies this, events.Repr()
      ensures fresh(events.Repr() - old(events.Repr()))
      ensures Plays(old(model), old(events.Kind()), RunPlan(old(model), script), trace, outcome, model, events.Kind())
      ensures InOrder(model) && old(model.currentTs) <= model.currentTs && old(model.executed) <= model.executed
      ensures outcome.Done? ==> Valid() && model.drained == [] && model.handOver == [] && (model.queue == [] || model.stop)
      ensures outcome.Done? && model.queue == [] ==> unscheduled == 0
      ensures Legal(old(model), StepsOf(RunPlan(old(model), script))) ==> !outcome.Blocked?
      ensures forall p: Promise :: ScriptFits(script, p) ==> Spared(p, old(model), old(events.Kind()), outcome)
      ensures forall d: nat :: OrdinaryScript(script, d) && Room(old(model), CallsIn(script), d) ==> !outcome.Blocked?
      ensures script == [] && old(model.handOverEmpty) && old(events.Kind()) == ListKind ==> outcome.Done?
      ensures RunsInTurns(old(model), script, trace, outcome.Done?)
      ensures outcome.Done? && Take(Step.Stop) !in trace ==> model.queue == []
      ensures script == [] && old(model.handOverEmpty) && outcome.Done? ==>
        model.queue == [] && model.executed == old(model.executed) + old(model.queue)
    {
      hide Scheduler.Valid, Tracks, Reached, InOrder, Plays, ScriptFits, Spared, RunPlan, StartPlan, Legal, StepsOf,
        OrdinaryScript, Room, RunsInTurns;
      ghost var s, from := model, events.Kind();
      outcome, trace := RunAll(script);
      LeadsTo(s, from, RunPlan(s, script), trace, outcome, model, events.Kind());
      RunOrder(s, StepsOf(trace), model);
      RunPromises(s, from, script, trace, outcome, model, events.Kind());
      RunComesTo(s, from, script, trace, outcome, model, events.Kind());
      if outcome.Done? {
        CountsQueue();
        assert model.queue == [] ==> unscheduled == 0;
      }
    }

    method RunAll(script: seq<Turn>) returns (outcome: Outcome, ghost trace: seq<Move>)
      requires Valid() && model.drained == []
      modifies this, events.Repr()
      ensures fresh(events.Repr() - old(events.Repr()))
      ensures Plays(old(model), old(events.Kind()), RunPlan(old(model), script), trace, outcome, model, events.Kind())
      ensures outcome.Done? ==> Valid() && model.drained == [] && model.handOver == [] && (model.queue == [] || model.stop)
    {
      hide Scheduler.Valid, Tracks, Reached, Plays, ScriptPlan, StartPlan;
      ghost var s, from, start := model, events.Kind(), StartPlan(model);
      outcome, trace := StartRun();
      if !outcome.Done? {
        PlaysPart(s, from, start, RunRest(s, script), trace, outcome, model, from);
        return;
      }
      AllPlayed(s, from, start, trace, model, from);
      LeadsTo(s, from, start, start, Done, model, from);
      ghost var mid, more := model, [];
      outcome, more := ProcessAll(script);
      PlaysMore(s, from, start, mid, from, ScriptPlan(mid, script), more, outcome, model, events.Kind());
      trace := start + more;
    }

    /** Takes the first destroy event; a cancelled one is not invoked. */
    method TakeDestroyEvent() returns (invoke: bool)
      requires Valid() && model.drained == [] && destroyEvents != []
      modifies this`destroyEvents, this`model
      ensures Enabled(old(model), DestroyOne) && Valid() && model == Apply(old(model), DestroyOne)
      ensures model.drained == [] && destroyEvents == old(destroyEvents)[1..]
      ensures invoke <==> old(destroyEvents)[0].impl !in cancelled
    {
      hide Scheduler.Valid, Reached;
      QueueBounds(model);
      StepReached(model, DestroyOne);
      invoke := destroyEvents[0].impl !in cancelled;
      destroyEvents := destroyEvents[1..];
      model := Apply(model, DestroyOne);
    }

    /** Invokes the destroy events in order until none is left, also those that a handler of the script adds. */
    method Destroy(script: seq<seq<Action>>) returns (outcome: Outcome, ghost trace: seq<Move>)
      requires Valid() && model.drained == []
      modifies this, events.Repr()
      ensures fresh(events.Repr() - old(events.Repr()))
      ensures Plays(old(model), old(events.Kind()), DestroyPlan(old(model), script), trace, outcome, model, events.Kind())
      ensures outcome.Done? ==> Valid() && destroyEvents == []
      ensures outcome.Done? ==> Among(model.destroyed, model.destroyScheduled)
      ensures outcome.Done? ==> multiset(model.destroyScheduled) == multiset(model.destroyed) + multiset(model.destroyRemoved)
      ensures DestroysInTurns(old(model), script, trace, outcome.Done?)
      ensures forall p: Promise :: HandlersFit(script, p) ==> Spared(p, old(model), old(events.Kind()), outcome)
    {
      hide Scheduler.Valid, Tracks, Reached, Plays, HandlersFit, Spared, Among, DestroyPlan, DestroysInTurns;
      ghost var s, from := model, events.Kind();
      outcome, trace := DestroyAll(script);
      DestroyPromises(s, from, script, trace, outcome, model, events.Kind());
      DestroysPlanInTurns(s, script, from, trace, outcome, model, events.Kind());
      if outcome.Done? { DestroyedAll(); }
    }

    /** The first destroy event and its handler, unless it is cancelled. */
    method DestroyNext(handler: seq<Action>) returns (outcome: Outcome, ghost trace: seq<Move>)
      requires Valid() && model.drained == [] && destroyEvents != []
      modifies this, events.Repr()
      ensures fresh(events.Repr() - old(events.Repr()))
      ensures Plays(old(model), old(events.Kind()), DestroyFront(old(model), handler), trace, outcome, model, events.Kind())
      ensures outcome.Done? ==> Valid() && model.drained == []
    {
      hide Scheduler.Valid, Reached, Plays, Enabled, Apply;
      ghost var s, from, plan := model, events.Kind(), [Take(DestroyOne)];
      var invoke := TakeDestroyEvent();
      PlaysStep(s, from, DestroyOne);
      if !invoke {
        assert DestroyFront(s, handler) == plan;
        return Done, plan;
      }
      ghost var mid := model;
      outcome, trace := Handle(handler);
      PlaysMore(s, from, plan, mid, from, MovesOf(handler), trace, outcome, model, events.Kind());
      trace := plan + trace;
    }

    method DestroyAll(script: seq<seq<Action>>) returns (outcome: Outcome, ghost trace: seq<Move>)
      requires Valid() && model.drained == []
      modifies this, events.Repr()
      ensures fresh(events.Repr() - old(events.Repr()))
      ensures Plays(old(model), old(events.Kind()), DestroyPlan(old(model), script), trace, outcome, model, events.Kind())
      ensures outcome.Done? ==> Valid() && destroyEvents == []
    {
      hide Scheduler.Valid, Reached, Plays, DestroyPlan, DestroyFront;
      ghost var s, from := model, events.Kind();
      PlaysNothing(s, from);
      trace := [];
      var handlers := script;
      assert trace + DestroyPlan(s, script) == DestroyPlan(s, script);
      while destroyEvents != []
        invariant fresh(events.Repr() - old(events.Repr()))
        invariant Valid() && model.drained == []
        invariant Plays(s, from, trace, trace, Done, model, events.Kind())
        invariant DestroyPlan(s, script) == trace + DestroyPlan(model, handlers)
        decreases |handlers|, |destroyEvents|
      {
        ghost var before, kind, more := model, events.Kind(), [];
        ghost var plan, rest := DestroyFront(model, FirstHandler(handlers)), DestroyRest(model, handlers);
        NextDestroy(model, handlers);
        assert DestroyPlan(s, script) == trace + plan + rest;
        outcome, more := DestroyNext(FirstHandler(handlers));
        PlaysMore(s, from, trace, before, kind, plan, more, outcome, model, events.Kind());
        if !outcome.Done? {
          PlaysPart(s, from, trace + plan, rest, trace + more, outcome, model, events.Kind());
          trace := trace + more;
          return;
        }
        AllPlayed(before, kind, plan, more, model, events.Kind());
        LeadsTo(before, kind, plan, plan, Done, model, events.Kind());
        trace := trace + more;
        handlers := LaterHandlers(handlers);
      }
      NoDestroy(model, handlers);
      assert trace + [] == trace;
      outcome := Done;
    }

    lemma DestroyedAll()
      requires Valid() && destroyEvents == []
      ensures Among(model.destroyed, model.destroyScheduled)
      ensures multiset(model.destroyScheduled) == multiset(model.destroyed) + multiset(model.destroyRemoved)
    {
      AllDestroyed(model);
    }
  }
}
