/**
 The simulator as a state machine (default-simulator-impl.cc): one step per call into it, per
 critical section and per event taken off the queue.  A handler is any sequence of calls between two
 events, and other threads may hand events over between any two steps.
 */
module SimulatorRuns {
  import opened Words
  import opened Events

  const DESTROY_UID: u32 := 2
  const FIRST_UID: u32 := 4
  const NO_CONTEXT: u32 := 0xffff_ffff

  /** What a caller keeps of a scheduled event; implementation 0 is the null pointer. */
  datatype EventId = EventId(impl: nat, ts: u64, context: u32, uid: u32)

  /** An event handed over by another thread, its time still relative. */
  datatype Pending = Pending(impl: nat, context: u32, delay: u64)

  datatype State = State(
    queue: seq<Event>,
    uid: u32, currentTs: u64, currentUid: u32, currentContext: u32,
    unscheduled: int, stop: bool,
    handOver: seq<Pending>, handOverEmpty: bool,  // shared with the other threads
    drained: seq<Pending>,                        // taken over, not yet inserted
    destroyEvents: seq<EventId>,
    cancelled: set<nat>,                          // the implementations marked as cancelled
    // history
    inserted: seq<Event>, executed: seq<Event>, removed: seq<Event>, issued: set<EventId>,
    pushed: seq<Pending>, pushTimes: seq<u64>, delivered: seq<Event>, drainTimes: seq<u64>,
    destroyScheduled: seq<EventId>, destroyRemoved: seq<EventId>, destroyed: seq<EventId>)

  datatype Step =
    | Schedule(delay: int, impl: nat)
    | ScheduleNow(impl: nat)
    | ScheduleWithContext(context: u32, delay: int, impl: nat)
    | HandOver(context: u32, delay: int, impl: nat)
    | ScheduleDestroy(impl: nat)
    | Cancel(id: EventId)
    | Remove(id: EventId)
    | Stop
    | ClearStop
    | Swap
    | DrainOne
    | ProcessOne
    | DestroyOne

  const INITIAL: State :=
    State([], FIRST_UID, 0, 0, NO_CONTEXT, 0, false, [], true, [], [], {}, [], [], [], {}, [], [], [], [], [], [], [])

  function IdOf(ev: Event): (id: EventId)
  {
    EventId(ev.impl, ev.key.ts, ev.key.context, ev.key.uid)
  }

  function EventOf(id: EventId): (ev: Event)
    ensures IdOf(ev) == id
  {
    Event(id.impl, Key(id.ts, id.uid, id.context))
  }

  predicate IsExpired(s: State, id: EventId)
  {
    if id.uid == DESTROY_UID then
      id.impl == 0 || id.impl in s.cancelled || id !in s.destroyEvents
    else
      id.impl == 0 || id.ts < s.currentTs || (id.ts == s.currentTs && id.uid <= s.currentUid) || id.impl in s.cancelled
  }

  predicate UidsLeft(s: State)
  {
    s.uid + 1 < B32
  }

  /**
   When a step can be taken.  The main thread does nothing else while it drains; delays are not negative,
   times stay within the maximum simulation time and unique ids do not run out.
   */
  predicate Enabled(s: State, step: Step)
  {
    && s.currentTs <= MAX_TIME
    && match step
       case HandOver(_, delay, impl) => impl != 0 && 0 <= delay <= MAX_TIME
       case DrainOne => s.drained != [] && UidsLeft(s) && s.currentTs + s.drained[0].delay <= MAX_TIME
       case _ =>
         && s.drained == []
         && match step
            case Schedule(delay, impl) => impl != 0 && UidsLeft(s) && 0 <= delay <= MAX_TIME - s.currentTs
            case ScheduleNow(impl) => impl != 0 && UidsLeft(s)
            case ScheduleWithContext(_, delay, impl) => impl != 0 && UidsLeft(s) && 0 <= delay <= MAX_TIME - s.currentTs
            case ScheduleDestroy(_) => UidsLeft(s)
            case Remove(id) => id.uid == DESTROY_UID || id in s.issued || IsExpired(s, id)
            case Swap => !s.handOverEmpty
            case ProcessOne => s.queue != []
            case DestroyOne => s.destroyEvents != []
            case _ => true
  }

  function NewEvent(s: State, delay: nat, context: u32, impl: nat): (ev: Event)
    requires s.currentTs + delay <= MAX_TIME
  {
    Event(impl, Key(s.currentTs + delay, s.uid, context))
  }

  function Enqueued(s: State, ev: Event): (t: State)
    requires UidsLeft(s)
  {
    s.(queue := Inserted(s.queue, ev), uid := s.uid + 1, unscheduled := s.unscheduled + 1, inserted := s.inserted + [ev])
  }

  function WithoutId(ids: seq<EventId>, id: EventId): (r: seq<EventId>)
  {
    if ids == [] then [] else if ids[0] == id then ids[1..] else [ids[0]] + WithoutId(ids[1..], id)
  }

  function Apply(s: State, step: Step): (t: State)
    requires Enabled(s, step)
  {
    match step
    case Schedule(delay, impl) =>
      var ev := NewEvent(s, delay, s.currentContext, impl);
      Enqueued(s, ev).(issued := s.issued + {IdOf(ev)})
    case ScheduleNow(impl) =>
      var ev := NewEvent(s, 0, s.currentContext, impl);
      Enqueued(s, ev).(issued := s.issued + {IdOf(ev)})
    case ScheduleWithContext(context, delay, impl) =>
      Enqueued(s, NewEvent(s, delay, context, impl))
    case HandOver(context, delay, impl) =>
      var p := Pending(impl, context, delay);
      s.(handOver := s.handOver + [p], handOverEmpty := false, pushed := s.pushed + [p], pushTimes := s.pushTimes + [s.currentTs])
    case ScheduleDestroy(impl) =>
      var id := EventId(impl, s.currentTs, NO_CONTEXT, DESTROY_UID);
      s.(destroyEvents := s.destroyEvents + [id], uid := s.uid + 1, issued := s.issued + {id},
         destroyScheduled := s.destroyScheduled + [id])
    case Cancel(id) =>
      if IsExpired(s, id) then s else s.(cancelled := s.cancelled + {id.impl})
    case Remove(id) =>
      if id.uid == DESTROY_UID then
        s.(destroyEvents := WithoutId(s.destroyEvents, id),
           destroyRemoved := s.destroyRemoved + if id in s.destroyEvents then [id] else [])
      else if IsExpired(s, id) then s
      else s.(queue := Without(s.queue, id.uid), cancelled := s.cancelled + {id.impl},
              unscheduled := s.unscheduled - 1, removed := s.removed + [EventOf(id)])
    case Stop => s.(stop := true)
    case ClearStop => s.(stop := false)
    case Swap => s.(drained := s.handOver, handOver := [], handOverEmpty := true)
    case DrainOne =>
      var p := s.drained[0];
      var ev := NewEvent(s, p.delay, p.context, p.impl);
      Enqueued(s, ev).(drained := s.drained[1..], delivered := s.delivered + [ev],
                       drainTimes := s.drainTimes + [s.currentTs])
    case ProcessOne =>
      var ev := s.queue[0];
      s.(queue := s.queue[1..], unscheduled := s.unscheduled - 1, executed := s.executed + [ev],
         currentTs := ev.key.ts, currentUid := ev.key.uid, currentContext := ev.key.context)
    case DestroyOne => s.(destroyEvents := s.destroyEvents[1..], destroyed := s.destroyed + [s.destroyEvents[0]])
  }

  // ---------- what every step keeps ----------

  function Now(s: State): (k: Key)
  {
    Key(s.currentTs, s.currentUid, 0)
  }

  /** Every queued event lies ahead of the current one. */
  ghost predicate QueueAhead(s: State)
  {
    && EventList(s.queue) && s.currentTs <= MAX_TIME && s.currentUid < s.uid
    && FIRST_UID + |s.queue| <= s.uid && s.unscheduled == |s.queue|
    && forall i :: 0 <= i < |s.queue| ==>
         var k := s.queue[i].key; Less(Now(s), k) && FIRST_UID <= k.uid < s.uid && k.ts <= MAX_TIME
  }

  /** Every executed event lies at or behind the current one, in the order of execution. */
  ghost predicate ExecutedBehind(s: State)
  {
    Sorted(s.executed) && forall i :: 0 <= i < |s.executed| ==> !Less(Now(s), s.executed[i].key)
  }

  /** The event of every id handed out is queued, executed or removed; a removed one is cancelled. */
  ghost predicate IssuedKnown(s: State)
  {
    && (forall id :: id in s.issued && id.uid != DESTROY_UID ==>
          id.impl != 0 && (EventOf(id) in s.queue || EventOf(id) in s.executed || EventOf(id) in s.removed))
    && (forall i :: 0 <= i < |s.removed| ==> s.removed[i].impl in s.cancelled)
  }

  /** The events ever inserted, told apart by their ids, are those queued, executed or removed. */
  ghost predicate Conserved(s: State)
  {
    && multiset(s.inserted) == multiset(s.queue) + multiset(s.executed) + multiset(s.removed)
    && (forall i :: 0 <= i < |s.inserted| ==> s.inserted[i].key.uid < s.uid)
    && DistinctUids(s.inserted)
  }

  /** The hand-over list is a queue: what was pushed is delivered in order, then drained, then still in the list. */
  ghost predicate HandedOver(s: State)
  {
    && (s.handOver != [] ==> !s.handOverEmpty)
    && |s.delivered| == |s.drainTimes| <= |s.pushed|
    && s.pushed[|s.delivered|..] == s.drained + s.handOver
    && (forall i :: 0 <= i < |s.delivered| ==>
          var p, e := s.pushed[i], s.delivered[i];
          e.impl == p.impl && e.key.context == p.context && e.key.ts == s.drainTimes[i] + p.delay
          && s.drainTimes[i] <= s.currentTs && e.key.uid < s.uid && e in s.inserted)
    && (forall i, j :: 0 <= i < j < |s.delivered| ==>
          s.drainTimes[i] <= s.drainTimes[j] && s.delivered[i].key.uid < s.delivered[j].key.uid)
  }

  /** Events are drained no earlier than they were pushed. */
  ghost predicate PushedBefore(s: State)
  {
    && |s.pushTimes| == |s.pushed| && |s.drainTimes| <= |s.pushTimes|
    && (forall i :: 0 <= i < |s.pushTimes| ==> s.pushTimes[i] <= s.currentTs)
    && (forall i :: 0 <= i < |s.drainTimes| ==> s.pushTimes[i] <= s.drainTimes[i])
  }

  /** Of some things, in their order. */
  predicate Among(a: seq<EventId>, b: seq<EventId>)
  {
    if a == [] then true
    else if b == [] then false
    else (a[|a| - 1] == b[|b| - 1] && Among(a[..|a| - 1], b[..|b| - 1])) || Among(a, b[..|b| - 1])
  }

  /** Destroy events are taken in the order they were scheduled, all but the removed ones. */
  ghost predicate DestroysInOrder(s: State)
  {
    && Among(s.destroyed + s.destroyEvents, s.destroyScheduled)
    && multiset(s.destroyScheduled) == multiset(s.destroyed + s.destroyEvents) + multiset(s.destroyRemoved)
  }

  ghost predicate Invariant(s: State)
  {
    QueueAhead(s) && ExecutedBehind(s) && IssuedKnown(s) && Conserved(s) && HandedOver(s) && PushedBefore(s) && DestroysInOrder(s)
  }

  /** The step puts one new event into the queue. */
  predicate Inserts(step: Step)
  {
    step.Schedule? || step.ScheduleNow? || step.ScheduleWithContext? || step.DrainOne?
  }

  /** Where the new event comes from. */
  function NewOf(s: State, step: Step): (ev: Event)
    requires Enabled(s, step) && Inserts(step)
  {
    match step
    case Schedule(delay, impl) => NewEvent(s, delay, s.currentContext, impl)
    case ScheduleNow(impl) => NewEvent(s, 0, s.currentContext, impl)
    case ScheduleWithContext(context, delay, impl) => NewEvent(s, delay, context, impl)
    case DrainOne => NewEvent(s, s.drained[0].delay, s.drained[0].context, s.drained[0].impl)
  }

  lemma NewIsFresh(s: State, step: Step)
    requires QueueAhead(s) && Enabled(s, step) && Inserts(step)
    ensures var ev := NewOf(s, step);
      && FreshUid(s.queue, ev) && Less(Now(s), ev.key) && ev.key.uid == s.uid
      && s.currentTs <= ev.key.ts <= MAX_TIME && UidsLeft(s) && |s.queue| + 1 < B32
  {
  }

  lemma InsertKeepsQueue(s: State, step: Step)
    requires QueueAhead(s) && Enabled(s, step) && Inserts(step)
    ensures QueueAhead(Apply(s, step))
  {
    var ev, t := NewOf(s, step), Apply(s, step);
    NewIsFresh(s, step);
    InsertedIsEventList(s.queue, ev);
    InsertedMembers(s.queue, ev);
    forall i | 0 <= i < |t.queue|
      ensures var k := t.queue[i].key; Less(Now(t), k) && FIRST_UID <= k.uid < t.uid && k.ts <= MAX_TIME
    {
      assert t.queue[i] in s.queue || t.queue[i] == ev;
    }
  }

  /** Under the invariant an id handed out is expired exactly when its event is not waiting uncancelled in the queue. */
  lemma ExpiredExact(s: State, id: EventId)
    requires QueueAhead(s) && ExecutedBehind(s) && IssuedKnown(s) && id in s.issued && id.uid != DESTROY_UID
    ensures IsExpired(s, id) <==> !(EventOf(id) in s.queue && id.impl !in s.cancelled)
  {
    var ev := EventOf(id);
    if ev in s.executed {
      var i :| 0 <= i < |s.executed| && s.executed[i] == ev;
    }
  }

  lemma RemoveKeepsQueue(s: State, id: EventId)
    requires Invariant(s) && Enabled(s, Remove(id)) && id.uid != DESTROY_UID && !IsExpired(s, id)
    ensures QueueAhead(Apply(s, Remove(id)))
  {
    hide Conserved, HandedOver, PushedBefore, DestroysInOrder;
    ExpiredExact(s, id);
    hide ExecutedBehind, IssuedKnown, IsExpired;
    var ev, t := EventOf(id), Apply(s, Remove(id));
    WithoutIsEventList(s.queue, ev);
    WithoutMembers(s.queue, ev.key.uid);
    forall i | 0 <= i < |t.queue|
      ensures var k := t.queue[i].key; Less(Now(t), k) && FIRST_UID <= k.uid < t.uid && k.ts <= MAX_TIME
    {
      assert t.queue[i] in s.queue;
    }
  }

  lemma KeepsQueue(s: State, step: Step)
    requires Invariant(s) && Enabled(s, step)
    ensures QueueAhead(Apply(s, step))
  {
    hide ExecutedBehind, IssuedKnown, Conserved, HandedOver, PushedBefore, DestroysInOrder, IsExpired;
    if Inserts(step) {
      InsertKeepsQueue(s, step);
    } else if step.Remove? && step.id.uid != DESTROY_UID && !IsExpired(s, step.id) {
      RemoveKeepsQueue(s, step.id);
    } else if step.ProcessOne? {
      TailIsEventList(s.queue);
    }
  }

  lemma KeepsExecuted(s: State, step: Step)
    requires Invariant(s) && Enabled(s, step)
    ensures ExecutedBehind(Apply(s, step))
  {
    hide IssuedKnown, Conserved, HandedOver, PushedBefore, DestroysInOrder, IsExpired;
  }

  lemma KeepsIssued(s: State, step: Step)
    requires Invariant(s) && Enabled(s, step)
    ensures IssuedKnown(Apply(s, step))
  {
    hide QueueAhead, ExecutedBehind, Conserved, HandedOver, PushedBefore, DestroysInOrder, Inserted, Without, WithoutId;
    var t := Apply(s, step);
    forall id | id in t.issued && id.uid != DESTROY_UID
      ensures id.impl != 0 && (EventOf(id) in t.queue || EventOf(id) in t.executed || EventOf(id) in t.removed)
    {
      QueueMembers(s, step, EventOf(id));
    }
  }

  lemma RemovedMembers(s: State, id: EventId, e: Event)
    requires Invariant(s) && Enabled(s, Remove(id)) && id.uid != DESTROY_UID && !IsExpired(s, id) && e in s.queue
    ensures e == EventOf(id) || e in Without(s.queue, id.uid)
  {
    hide Conserved, HandedOver, PushedBefore, DestroysInOrder;
    ExpiredExact(s, id);
    WithoutBag(s.queue, EventOf(id));
    hide Without, QueueAhead, ExecutedBehind, IssuedKnown, IsExpired;
    assert e in multiset(s.queue);
    assert e in multiset(Without(s.queue, id.uid)) || e == EventOf(id);
  }

  /** Where the queued events go. */
  lemma QueueMembers(s: State, step: Step, e: Event)
    requires Invariant(s) && Enabled(s, step)
    ensures var t := Apply(s, step);
      && (e in s.queue ==> e in t.queue || e in t.executed || e in t.removed)
      && (Inserts(step) ==> NewOf(s, step) in t.queue)
  {
    hide Conserved, HandedOver, PushedBefore, DestroysInOrder, Inserted, Without, WithoutId, IsExpired, ExecutedBehind, IssuedKnown;
    if Inserts(step) {
      InsertedMembers(s.queue, NewOf(s, step));
    } else if step.ProcessOne? {
      TailMembers(s.queue, e);
    } else if step.Remove? && step.id.uid != DESTROY_UID && !IsExpired(s, step.id) && e in s.queue {
      RemovedMembers(s, step.id, e);
    }
  }

  lemma InsertConserves(s: State, ev: Event)
    requires Conserved(s) && UidsLeft(s) && ev.key.uid == s.uid
    ensures Conserved(Enqueued(s, ev))
  {
    var t := Enqueued(s, ev);
    InsertedBag(s.queue, ev);
    assert multiset(t.inserted) == multiset(s.inserted) + multiset{ev};
  }

  lemma ProcessConserves(s: State)
    requires Conserved(s) && Enabled(s, ProcessOne)
    ensures Conserved(Apply(s, ProcessOne))
  {
    var ev := s.queue[0];
    assert s.queue == [ev] + s.queue[1..];
    assert multiset(s.executed + [ev]) == multiset(s.executed) + multiset{ev};
  }

  /** An event moved from the queue to the removed ones. */
  lemma MovedBag(all: multiset<Event>, queue: seq<Event>, executed: multiset<Event>, removed: seq<Event>, ev: Event)
    requires all == multiset(queue) + executed + multiset(removed) && DistinctUids(queue) && ev in queue
    ensures all == multiset(Without(queue, ev.key.uid)) + executed + multiset(removed + [ev])
  {
    WithoutBag(queue, ev);
    hide DistinctUids, Without;
    assert multiset(removed + [ev]) == multiset(removed) + multiset{ev};
  }

  lemma RemoveConserves(s: State, id: EventId)
    requires Invariant(s) && Enabled(s, Remove(id)) && id.uid != DESTROY_UID && !IsExpired(s, id)
    ensures Conserved(Apply(s, Remove(id)))
  {
    ExpiredExact(s, id);
    hide HandedOver, PushedBefore, DestroysInOrder, ExecutedBehind, IssuedKnown, IsExpired, Without, DistinctUids;
    MovedBag(multiset(s.inserted), s.queue, multiset(s.executed), s.removed, EventOf(id));
  }

  lemma KeepsConserved(s: State, step: Step)
    requires Invariant(s) && Enabled(s, step)
    ensures Conserved(Apply(s, step))
  {
    if Inserts(step) {
      NewIsFresh(s, step);
      InsertConserves(s, NewOf(s, step));
    } else if step.ProcessOne? {
      ProcessConserves(s);
    } else if step.Remove? && step.id.uid != DESTROY_UID && !IsExpired(s, step.id) {
      RemoveConserves(s, step.id);
    }
  }

  lemma PushKeepsHandedOver(s: State, step: Step)
    requires HandedOver(s) && step.HandOver? && Enabled(s, step)
    ensures HandedOver(Apply(s, step))
  {
    var p := Pending(step.impl, step.context, step.delay);
    var n := |s.delivered|;
    assert (s.pushed + [p])[n..] == s.pushed[n..] + [p];
    assert s.drained + s.handOver + [p] == s.drained + (s.handOver + [p]);
  }

  lemma DrainKeepsHandedOver(s: State)
    requires HandedOver(s) && Enabled(s, DrainOne)
    ensures HandedOver(Apply(s, DrainOne))
  {
    var n := |s.delivered|;
    assert s.pushed[n] == s.pushed[n..][0] == s.drained[0];
    assert s.pushed[n + 1..] == s.pushed[n..][1..] == s.drained[1..] + s.handOver;
  }

  lemma SwapKeepsHandedOver(s: State)
    requires HandedOver(s) && Enabled(s, Swap)
    ensures HandedOver(Apply(s, Swap))
  {
    assert s.drained == [];
    assert s.drained + s.handOver == s.handOver + [];
  }

  lemma LaterHandedOver(s: State, t: State)
    requires HandedOver(s) && s.currentTs <= t.currentTs && s.uid <= t.uid && s.inserted <= t.inserted
    requires s.handOver == t.handOver && s.handOverEmpty == t.handOverEmpty && s.drained == t.drained
    requires s.pushed == t.pushed && s.delivered == t.delivered && s.drainTimes == t.drainTimes
    ensures HandedOver(t)
  {
  }

  lemma OtherKeepsHandedOver(s: State, step: Step)
    requires QueueAhead(s) && HandedOver(s) && Enabled(s, step) && !step.HandOver? && !step.DrainOne? && !step.Swap?
    ensures HandedOver(Apply(s, step))
  {
    hide HandedOver, EventList, Inserted, Without, WithoutId, IsExpired;
    var t := Apply(s, step);
    if step.ProcessOne? {
      assert Less(Now(s), s.queue[0].key);
      LaterHandedOver(s, t);
    } else if Inserts(step) {
      assert t.inserted == s.inserted + [NewOf(s, step)];
      LaterHandedOver(s, t);
    } else {
      assert t.inserted == s.inserted;
      LaterHandedOver(s, t);
    }
  }

  lemma KeepsHandedOver(s: State, step: Step)
    requires Invariant(s) && Enabled(s, step)
    ensures HandedOver(Apply(s, step))
  {
    hide HandedOver, QueueAhead, ExecutedBehind, IssuedKnown, Conserved, PushedBefore, DestroysInOrder, Apply, Enabled;
    if step.HandOver? {
      PushKeepsHandedOver(s, step);
    } else if step.DrainOne? {
      DrainKeepsHandedOver(s);
    } else if step.Swap? {
      SwapKeepsHandedOver(s);
    } else {
      OtherKeepsHandedOver(s, step);
    }
  }

  lemma KeepsPushedBefore(s: State, step: Step)
    requires Invariant(s) && Enabled(s, step)
    ensures PushedBefore(Apply(s, step))
  {
    hide ExecutedBehind, IssuedKnown, Conserved, DestroysInOrder, IsExpired, Without, WithoutId, Inserted;
    if step.ProcessOne? {
      assert Less(Now(s), s.queue[0].key);
    } else if step.DrainOne? {
      assert s.pushed[|s.delivered|..] != [];
    }
  }

  // ---------- the list of destroy events ----------

  lemma {:induction false} WithoutIdAt(ids: seq<EventId>, id: EventId, i: nat)
    requires i < |ids| && ids[i] == id && id !in ids[..i]
    ensures WithoutId(ids, id) == ids[..i] + ids[i + 1..]
  {
    if i > 0 {
      var t := ids[1..];
      assert ids[0] == ids[..i][0] && t[..i - 1] == ids[..i][1..];
      WithoutIdAt(t, id, i - 1);
      assert WithoutId(ids, id) == [ids[0]] + WithoutId(t, id);
      hide WithoutId;
      assert ids[..i] == [ids[0]] + t[..i - 1] && ids[i + 1..] == t[i..];
    }
  }

  lemma {:induction false} WithoutIdAbsent(ids: seq<EventId>, id: EventId)
    requires id !in ids
    ensures WithoutId(ids, id) == ids
  {
    if ids != [] { WithoutIdAbsent(ids[1..], id); }
  }

  /** One thing less. */
  lemma {:induction false} AmongWithout(a: seq<EventId>, b: seq<EventId>, i: nat)
    requires Among(a, b) && i < |a|
    ensures Among(a[..i] + a[i + 1..], b)
    decreases |b|
  {
    var c, n, b' := a[..i] + a[i + 1..], |a| - 1, b[..|b| - 1];
    if a[n] == b[|b| - 1] && Among(a[..n], b') {
      if i == n {
        assert c == a[..n];
      } else {
        AmongWithout(a[..n], b', i);
        assert c[..|c| - 1] == a[..n][..i] + a[..n][i + 1..] && c[|c| - 1] == a[n];
      }
    } else {
      AmongWithout(a, b', i);
    }
  }

  lemma AmongSnoc(a: seq<EventId>, b: seq<EventId>, id: EventId)
    requires Among(a, b)
    ensures Among(a + [id], b + [id])
  {
    assert (a + [id])[..|a|] == a && (b + [id])[..|b|] == b;
  }

  lemma FindId(ids: seq<EventId>, id: EventId) returns (i: nat)
    requires id in ids
    ensures i < |ids| && ids[i] == id && id !in ids[..i]
  {
    i := 0;
    while ids[i] != id
      invariant i < |ids| && id in ids[i..] && id !in ids[..i]
      decreases |ids| - i
    {
      assert ids[..i + 1] == ids[..i] + [ids[i]];
      i := i + 1;
    }
  }

  lemma WithoutIdAmong(d: seq<EventId>, l: seq<EventId>, b: seq<EventId>, id: EventId)
    requires Among(d + l, b)
    ensures Among(d + WithoutId(l, id), b)
  {
    if id in l {
      var i := FindId(l, id);
      WithoutIdAt(l, id, i);
      AmongWithout(d + l, b, |d| + i);
      hide Among, WithoutId;
      assert (d + l)[..|d| + i] + (d + l)[|d| + i + 1..] == d + (l[..i] + l[i + 1..]);
    } else {
      WithoutIdAbsent(l, id);
    }
  }

  lemma WithoutIdBag(l: seq<EventId>, id: EventId)
    ensures multiset(l) == multiset(WithoutId(l, id)) + multiset(if id in l then [id] else [])
  {
    if id in l {
      var i := FindId(l, id);
      WithoutIdAt(l, id, i);
      hide WithoutId;
      assert l == l[..i] + [id] + l[i + 1..];
    } else {
      WithoutIdAbsent(l, id);
    }
  }

  lemma RemoveKeepsDestroys(s: State, id: EventId)
    requires DestroysInOrder(s) && Enabled(s, Remove(id)) && id.uid == DESTROY_UID
    ensures DestroysInOrder(Apply(s, Remove(id)))
  {
    hide Among, WithoutId;
    WithoutIdAmong(s.destroyed, s.destroyEvents, s.destroyScheduled, id);
    WithoutIdBag(s.destroyEvents, id);
  }

  lemma ScheduledBag(all: seq<EventId>, d: seq<EventId>, l: seq<EventId>, r: seq<EventId>, id: EventId)
    requires multiset(all) == multiset(d + l) + multiset(r)
    ensures multiset(all + [id]) == multiset(d + (l + [id])) + multiset(r)
  {
    assert d + (l + [id]) == d + l + [id];
  }

  lemma ScheduleKeepsDestroys(s: State, impl: nat)
    requires DestroysInOrder(s) && Enabled(s, ScheduleDestroy(impl))
    ensures DestroysInOrder(Apply(s, ScheduleDestroy(impl)))
  {
    hide Among;
    var id := EventId(impl, s.currentTs, NO_CONTEXT, DESTROY_UID);
    ScheduledBag(s.destroyScheduled, s.destroyed, s.destroyEvents, s.destroyRemoved, id);
    AmongSnoc(s.destroyed + s.destroyEvents, s.destroyScheduled, id);
    assert s.destroyed + (s.destroyEvents + [id]) == s.destroyed + s.destroyEvents + [id];
  }

  lemma KeepsDestroys(s: State, step: Step)
    requires DestroysInOrder(s) && Enabled(s, step)
    ensures DestroysInOrder(Apply(s, step))
  {
    hide Among, WithoutId;
    match step
    case ScheduleDestroy(impl) => ScheduleKeepsDestroys(s, impl);
    case Remove(id) => if id.uid == DESTROY_UID { RemoveKeepsDestroys(s, id); }
    case DestroyOne =>
      assert s.destroyed + [s.destroyEvents[0]] + s.destroyEvents[1..] == s.destroyed + s.destroyEvents;
    case _ =>
  }

  /** Every step keeps the whole invariant. */
  lemma StepKeepsInvariant(s: State, step: Step)
    requires Invariant(s) && Enabled(s, step)
    ensures Invariant(Apply(s, step))
  {
    KeepsQueue(s, step);
    KeepsExecuted(s, step);
    KeepsIssued(s, step);
    KeepsConserved(s, step);
    KeepsHandedOver(s, step);
    KeepsPushedBefore(s, step);
    KeepsDestroys(s, step);
  }

  // ---------- runs ----------

  /** Every step of the run can be taken when its turn comes. */
  ghost predicate Legal(s: State, steps: seq<Step>)
    decreases |steps|
  {
    steps == [] || (Enabled(s, steps[0]) && Legal(Apply(s, steps[0]), steps[1..]))
  }

  ghost function After(s: State, steps: seq<Step>): (t: State)
    requires Legal(s, steps)
    decreases |steps|
  {
    if steps == [] then s else After(Apply(s, steps[0]), steps[1..])
  }

  lemma {:induction false} AfterAppend(s: State, a: seq<Step>, b: seq<Step>)
    requires Legal(s, a) && Legal(After(s, a), b)
    ensures Legal(s, a + b) && After(s, a + b) == After(After(s, a), b)
    decreases |a|
  {
    if a == [] {
      assert a + b == b;
    } else {
      assert (a + b)[0] == a[0] && (a + b)[1..] == a[1..] + b;
      AfterAppend(Apply(s, a[0]), a[1..], b);
    }
  }

  /** A legal run is legal up to any point, and from there on. */
  lemma {:induction false} LegalSplit(s: State, a: seq<Step>, b: seq<Step>)
    requires Legal(s, a + b)
    ensures Legal(s, a) && Legal(After(s, a), b)
    decreases |a|
  {
    if a == [] {
      assert a + b == b;
    } else {
      assert (a + b)[0] == a[0] && (a + b)[1..] == a[1..] + b;
      LegalSplit(Apply(s, a[0]), a[1..], b);
    }
  }

  /** Time does not go back in a run, and what has been executed stays the beginning of what will be. */
  lemma {:induction false} RunKeepsInvariant(s: State, steps: seq<Step>)
    requires Invariant(s) && Legal(s, steps)
    ensures var t := After(s, steps);
      Invariant(t) && s.currentTs <= t.currentTs && s.executed <= t.executed
    decreases |steps|
  {
    if steps != [] {
      var u := Apply(s, steps[0]);
      StepKeepsInvariant(s, steps[0]);
      StepMovesOn(s, steps[0]);
      RunKeepsInvariant(u, steps[1..]);
    }
  }

  lemma StepMovesOn(s: State, step: Step)
    requires QueueAhead(s) && Enabled(s, step)
    ensures var t := Apply(s, step); s.currentTs <= t.currentTs && s.executed <= t.executed
  {
  }

  /** Events have been executed in strictly increasing key order, all of them before any still queued. */
  ghost predicate InOrder(s: State)
  {
    Sorted(s.executed)
    && forall i, j :: 0 <= i < |s.executed| && 0 <= j < |s.queue| ==> Less(s.executed[i].key, s.queue[j].key)
  }

  lemma ExecutedBeforeQueued(s: State)
    requires QueueAhead(s) && ExecutedBehind(s)
    ensures InOrder(s)
  {
  }

  lemma InitialInvariant()
    ensures Invariant(INITIAL)
  {
    var none: seq<EventId> := [];
    assert none + none == none && Among(none, none);
    hide Among;
    assert DestroysInOrder(INITIAL);
  }

  lemma EveryRunInOrder(steps: seq<Step>)
    requires Legal(INITIAL, steps)
    ensures InOrder(After(INITIAL, steps))
    ensures var done := After(INITIAL, steps).executed;
      forall i, j :: 0 <= i < j < |done| ==>
        done[i].key.ts < done[j].key.ts || (done[i].key.ts == done[j].key.ts && done[i].key.uid < done[j].key.uid)
  {
    hide Legal, After, HandedOver, PushedBefore, DestroysInOrder, IssuedKnown, Conserved, InOrder;
    InitialInvariant();
    RunKeepsInvariant(INITIAL, steps);
    ExecutedBeforeQueued(After(INITIAL, steps));
  }

  /** In every reachable state an id from Schedule or ScheduleNow is expired exactly when its event is not waiting, uncancelled, in the queue. */
  lemma EveryRunExpiresExactly(steps: seq<Step>, id: EventId)
    requires Legal(INITIAL, steps) && id in After(INITIAL, steps).issued && id.uid != DESTROY_UID
    ensures var t := After(INITIAL, steps);
      IsExpired(t, id) <==> !(EventOf(id) in t.queue && id.impl !in t.cancelled)
  {
    hide Conserved, HandedOver, PushedBefore, DestroysInOrder, Legal, After, IsExpired;
    InitialInvariant();
    RunKeepsInvariant(INITIAL, steps);
    ExpiredExact(After(INITIAL, steps), id);
  }

  /**
   In every reachable state the events accepted so far are, each exactly once, queued, executed or
   removed, and the counter checked at the end of a run is the number of queued events.
   */
  lemma EveryRunConserves(steps: seq<Step>)
    requires Legal(INITIAL, steps)
    ensures var t := After(INITIAL, steps);
      && multiset(t.inserted) == multiset(t.queue) + multiset(t.executed) + multiset(t.removed)
      && (forall e :: multiset(t.inserted)[e] <= 1)
      && t.unscheduled == |t.queue|
  {
    hide Legal, After, HandedOver, PushedBefore, DestroysInOrder, IssuedKnown, ExecutedBehind;
    InitialInvariant();
    RunKeepsInvariant(INITIAL, steps);
    forall e ensures multiset(After(INITIAL, steps).inserted)[e] <= 1 {
      DistinctOnce(After(INITIAL, steps).inserted, e);
    }
  }

  /**
   Events handed over by other threads are inserted in the order they were pushed, none lost and none
   twice, and none is due before its delay has passed since it was pushed.  Of two pushed with non-decreasing
   delays the first gets the smaller key, whichever rounds they were drained in.
   */
  lemma EveryRunHandsOver(steps: seq<Step>, i: nat, j: nat)
    requires Legal(INITIAL, steps)
    ensures var t := After(INITIAL, steps);
      && |t.delivered| <= |t.pushed| && t.pushed[|t.delivered|..] == t.drained + t.handOver
      && (t.handOver != [] ==> !t.handOverEmpty)
      && (i < |t.delivered| ==>
            var p, e := t.pushed[i], t.delivered[i];
            e.impl == p.impl && e.key.context == p.context && e in t.inserted
            && |t.pushTimes| == |t.pushed| && t.pushTimes[i] + p.delay <= e.key.ts <= t.currentTs + p.delay)
      && (i < j < |t.delivered| && t.pushed[i].delay <= t.pushed[j].delay ==> Less(t.delivered[i].key, t.delivered[j].key))
  {
    hide QueueAhead, ExecutedBehind, IssuedKnown, Conserved, DestroysInOrder, Legal, After;
    InitialInvariant();
    RunKeepsInvariant(INITIAL, steps);
  }

  /** Destroy events are invoked in the order they were scheduled, each but those removed before. */
  lemma EveryRunDestroysInOrder(steps: seq<Step>)
    requires Legal(INITIAL, steps)
    ensures var t := After(INITIAL, steps);
      && Among(t.destroyed + t.destroyEvents, t.destroyScheduled)
      && multiset(t.destroyScheduled) == multiset(t.destroyed + t.destroyEvents) + multiset(t.destroyRemoved)
  {
    hide QueueAhead, ExecutedBehind, IssuedKnown, Conserved, HandedOver, Legal, After, Among;
    InitialInvariant();
    RunKeepsInvariant(INITIAL, steps);
  }

  // ---------- runs with short delays ----------

  predicate Short(step: Step)
  {
    match step
    case Schedule(delay, _) => delay < B32
    case ScheduleWithContext(_, delay, _) => delay < B32
    case HandOver(_, delay, _) => delay < B32
    case _ => true
  }

  /** Everything that is waiting is due within 2^32 time units. */
  predicate Near(s: State)
  {
    && DueBy(s.queue, s.currentTs + B32)
    && (forall i :: 0 <= i < |s.drained| ==> s.drained[i].delay < B32)
    && (forall i :: 0 <= i < |s.handOver| ==> s.handOver[i].delay < B32)
  }

  predicate DueBy(q: seq<Event>, t: int)
  {
    forall i :: 0 <= i < |q| ==> q[i].key.ts < t
  }

  lemma InsertedDueBy(q: seq<Event>, ev: Event, t: int)
    requires DueBy(q, t) && ev.key.ts < t
    ensures DueBy(Inserted(q, ev), t)
  {
    InsertedMembers(q, ev);
    forall e | e in Inserted(q, ev) ensures e.key.ts < t {
      assert e in q || e == ev;
    }
  }

  lemma WithoutDueBy(q: seq<Event>, uid: u32, t: int)
    requires DueBy(q, t)
    ensures DueBy(Without(q, uid), t)
  {
    WithoutMembers(q, uid);
    forall e | e in Without(q, uid) ensures e.key.ts < t {
      assert e in q;
    }
  }

  lemma ShortKeepsNear(s: State, step: Step)
    requires QueueAhead(s) && Near(s) && Enabled(s, step) && Short(step)
    ensures Near(Apply(s, step))
  {
    hide IsExpired, Inserted, Without, WithoutId, QueueAhead, DueBy;
    NextIsNotBefore(s);
    if Inserts(step) {
      InsertedDueBy(s.queue, NewOf(s, step), s.currentTs + B32);
    } else if step.Remove? {
      WithoutDueBy(s.queue, step.id.uid, s.currentTs + B32);
    } else if step.ProcessOne? {
      LaterDueBy(s.queue, s.currentTs + B32, s.queue[0].key.ts + B32);
    }
  }

  lemma NextIsNotBefore(s: State)
    requires QueueAhead(s)
    ensures s.queue != [] ==> s.currentTs <= s.queue[0].key.ts
  {
    if s.queue != [] { assert Less(Now(s), s.queue[0].key); }
  }

  lemma LaterDueBy(q: seq<Event>, t: int, u: int)
    requires q != [] && DueBy(q, t) && t <= u
    ensures DueBy(q[1..], u)
  {
  }

  /** As long as all delays are short, everything that waits is due soon. */
  lemma {:induction false} ShortRunStaysNear(s: State, steps: seq<Step>)
    requires Invariant(s) && Near(s) && Legal(s, steps) && forall i :: 0 <= i < |steps| ==> Short(steps[i])
    ensures Near(After(s, steps))
    decreases |steps|
  {
    hide Near, Short, Invariant;
    if steps != [] {
      assert Short(steps[0]);
      IsAhead(s);
      StepKeepsInvariant(s, steps[0]);
      ShortKeepsNear(s, steps[0]);
      ShortRunStaysNear(Apply(s, steps[0]), steps[1..]);
    }
  }

  lemma IsAhead(s: State)
    requires Invariant(s)
    ensures QueueAhead(s)
  {
  }

  // ---------- negative delays ----------

  /**
   Only Schedule asserts that its delay is not negative.  Had another call put an event into the queue at a
   delay from now, the next event to be taken would lie in the past exactly when that delay is negative.
   */
  lemma NegativeDelayRunsBack(s: State, context: u32, delay: int, impl: nat)
    requires QueueAhead(s) && 0 <= s.currentTs + delay <= MAX_TIME
    ensures Inserted(s.queue, Event(impl, Key(s.currentTs + delay, s.uid, context)))[0].key.ts < s.currentTs <==> delay < 0
  {
    var ev := Event(impl, Key(s.currentTs + delay, s.uid, context));
    forall i | 0 <= i < |s.queue| ensures s.currentTs <= s.queue[i].key.ts {
      assert Less(Now(s), s.queue[i].key);
    }
    if delay < 0 { RankIs(s.queue, ev.key, 0); }
  }

  // ---------- reachable states ----------

  ghost predicate Reached(s: State)
  {
    exists steps :: Legal(INITIAL, steps) && After(INITIAL, steps) == s
  }

  lemma ReachedInvariant(s: State)
    requires Reached(s)
    ensures Invariant(s)
  {
    var steps :| Legal(INITIAL, steps) && After(INITIAL, steps) == s;
    RunKeepsInvariant(INITIAL, steps);
  }

  lemma InitialReached()
    ensures Reached(INITIAL)
  {
    assert Legal(INITIAL, []) && After(INITIAL, []) == INITIAL;
  }

  lemma OneStep(s: State, step: Step)
    requires Enabled(s, step)
    ensures Legal(s, [step]) && After(s, [step]) == Apply(s, step)
  {
    var rest := [step][1..];
    assert rest == [] && Legal(Apply(s, step), rest) && After(Apply(s, step), rest) == Apply(s, step);
  }

  lemma StepReached(s: State, step: Step)
    requires Reached(s) && Enabled(s, step)
    ensures Reached(Apply(s, step))
  {
    var steps :| Legal(INITIAL, steps) && After(INITIAL, steps) == s;
    OneStep(s, step);
    AfterAppend(INITIAL, steps, [step]);
  }

  /** What the schedulers ask of an inserted event holds in every reachable state. */
  lemma InsertReached(s: State, step: Step)
    requires Reached(s) && Enabled(s, step) && Inserts(step)
    ensures Reached(Apply(s, step))
    ensures var ev := NewOf(s, step);
      && FreshUid(s.queue, ev) && s.currentTs <= ev.key.ts <= MAX_TIME
      && UidsLeft(s) && |s.queue| + 1 < B32
  {
    StepReached(s, step);
    ReachedInvariant(s);
    NewIsFresh(s, step);
  }

  /** An event that is removed before it expires is in the queue. */
  lemma RemovedIsQueued(s: State, id: EventId)
    requires Reached(s) && Enabled(s, Remove(id)) && id.uid != DESTROY_UID && !IsExpired(s, id)
    ensures EventOf(id) in s.queue
  {
    ReachedInvariant(s);
    ExpiredExact(s, id);
  }
}
