/**
 What became of a call: statements about any run and any one of its steps, in terms of what the call said and of
 the clock when it was made.  They hold at the end of the run, and so at every moment after the call.
 */
module RunHistories {
  import opened Words
  import opened Events
  import opened SimulatorRuns

  /** The state before step i of a run. */
  ghost function Before(steps: seq<Step>, i: nat): (s: State)
    requires i <= |steps| && Legal(INITIAL, steps)
  {
    LegalAt(steps, i);
    After(INITIAL, steps[..i])
  }

  lemma LegalAt(steps: seq<Step>, i: nat)
    requires i <= |steps| && Legal(INITIAL, steps)
    ensures Legal(INITIAL, steps[..i]) && Legal(After(INITIAL, steps[..i]), steps[i..])
    ensures After(INITIAL, steps) == After(After(INITIAL, steps[..i]), steps[i..])
  {
    assert steps == steps[..i] + steps[i..];
    LegalSplit(INITIAL, steps[..i], steps[i..]);
    AfterAppend(INITIAL, steps[..i], steps[i..]);
  }

  /** A run is what comes before a step, the step, and the rest. */
  lemma RunAround(steps: seq<Step>, i: nat) returns (s: State, u: State, t: State)
    requires i < |steps| && Legal(INITIAL, steps)
    ensures s == Before(steps, i) && t == After(INITIAL, steps)
    ensures Enabled(s, steps[i]) && u == Apply(s, steps[i]) && u == Before(steps, i + 1)
    ensures Invariant(s) && Invariant(u) && Invariant(t)
    ensures Grown(s, u) && Grown(u, t)
    ensures Executing(s) && Executing(u) && Executing(t)
  {
    hide Legal, After, Apply, Enabled, Invariant, Executing, Grown, Before;
    s, t := Before(steps, i), After(INITIAL, steps);
    u := StepAt(steps, i);
    InitialInvariant();
    InitialExecuting();
    RunKeepsInvariant(INITIAL, steps[..i]);
    RunKeepsExecuting(INITIAL, steps[..i]);
    IsAhead(s);
    StepKeepsInvariant(s, steps[i]);
    StepKeepsExecuting(s, steps[i]);
    StepGrows(s, steps[i]);
    RunKeepsInvariant(u, steps[i + 1..]);
    RunKeepsExecuting(u, steps[i + 1..]);
    RunGrows(u, steps[i + 1..]);
  }

  lemma StepAt(steps: seq<Step>, i: nat) returns (u: State)
    requires i < |steps| && Legal(INITIAL, steps)
    ensures var s := Before(steps, i);
      && Legal(INITIAL, steps[..i]) && s == After(INITIAL, steps[..i])
      && Enabled(s, steps[i]) && u == Apply(s, steps[i]) && u == Before(steps, i + 1)
      && Legal(u, steps[i + 1..]) && After(u, steps[i + 1..]) == After(INITIAL, steps)
  {
    hide Apply, Enabled;
    LegalAt(steps, i);
    var s, rest := Before(steps, i), steps[i..];
    assert rest[0] == steps[i] && rest[1..] == steps[i + 1..];
    u := Apply(s, steps[i]);
    OneStep(s, steps[i]);
    AfterAppend(INITIAL, steps[..i], [steps[i]]);
    assert steps[..i] + [steps[i]] == steps[..i + 1];
  }

  // ---------- what only grows ----------

  /** Marks, ids and records are never taken back, and the clock and the unique ids only advance. */
  ghost predicate Grown(s: State, t: State)
  {
    && s.inserted <= t.inserted && s.executed <= t.executed && s.removed <= t.removed
    && s.pushed <= t.pushed && s.pushTimes <= t.pushTimes && s.delivered <= t.delivered
    && s.cancelled <= t.cancelled && s.issued <= t.issued && s.uid <= t.uid
    && !Less(Now(t), Now(s))
  }

  lemma StepGrows(s: State, step: Step)
    requires QueueAhead(s) && Enabled(s, step)
    ensures Grown(s, Apply(s, step))
  {
    hide EventList, Inserted, Without, WithoutId, IsExpired, Grown;
    var t := Apply(s, step);
    if step.ProcessOne? {
      assert Less(Now(s), s.queue[0].key);
      AddsTo(s.executed, [s.queue[0]]);
      IsGrown(s, t);
    } else if Inserts(step) {
      AddsTo(s.inserted, [NewOf(s, step)]);
      if step.DrainOne? { AddsTo(s.delivered, [NewOf(s, step)]); }
      IsGrown(s, t);
    } else {
      IsGrown(s, t);
    }
  }

  lemma AddsTo(a: seq<Event>, b: seq<Event>)
    ensures a <= a + b
  {
  }

  lemma IsGrown(s: State, t: State)
    requires s.inserted <= t.inserted && s.executed <= t.executed && s.removed <= t.removed
    requires s.pushed <= t.pushed && s.pushTimes <= t.pushTimes && s.delivered <= t.delivered
    requires s.cancelled <= t.cancelled && s.issued <= t.issued && s.uid <= t.uid && !Less(Now(t), Now(s))
    ensures Grown(s, t)
  {
  }

  lemma GrownOn(s: State, t: State, u: State)
    requires Grown(s, t) && Grown(t, u)
    ensures Grown(s, u)
  {
  }

  lemma {:induction false} RunGrows(s: State, steps: seq<Step>)
    requires Invariant(s) && Legal(s, steps)
    ensures Grown(s, After(s, steps))
    decreases |steps|
  {
    hide Invariant, Grown;
    if steps == [] {
      SameGrown(s);
    } else {
      var u := Apply(s, steps[0]);
      IsAhead(s);
      StepGrows(s, steps[0]);
      StepKeepsInvariant(s, steps[0]);
      RunGrows(u, steps[1..]);
      GrownOn(s, u, After(s, steps));
    }
  }

  lemma SameGrown(s: State)
    ensures Grown(s, s)
  {
  }

  // ---------- the event being executed ----------

  /** Time, context and unique id are those of the last event executed. */
  ghost predicate Executing(s: State)
  {
    if s.executed == [] then s.currentUid == 0
    else s.executed[|s.executed| - 1].key == Key(s.currentTs, s.currentUid, s.currentContext)
  }

  lemma InitialExecuting()
    ensures Executing(INITIAL)
  {
  }

  lemma StepKeepsExecuting(s: State, step: Step)
    requires Executing(s) && Enabled(s, step)
    ensures Executing(Apply(s, step))
  {
    hide Inserted, Without, WithoutId, IsExpired;
  }

  lemma {:induction false} RunKeepsExecuting(s: State, steps: seq<Step>)
    requires Executing(s) && Legal(s, steps)
    ensures Executing(After(s, steps))
    decreases |steps|
  {
    hide Executing;
    if steps != [] {
      StepKeepsExecuting(s, steps[0]);
      RunKeepsExecuting(Apply(s, steps[0]), steps[1..]);
    }
  }

  // ---------- scheduled events ----------

  /** The event is in one place, waits no longer than its time, and while it is executed the clock and the context are its own. */
  ghost predicate OnTime(t: State, ev: Event)
  {
    && multiset(t.queue)[ev] + multiset(t.executed)[ev] + multiset(t.removed)[ev] == 1
    && (ev in t.queue ==> t.currentTs <= ev.key.ts)
    && (t.currentUid == ev.key.uid ==> ev in t.executed && t.currentTs == ev.key.ts && t.currentContext == ev.key.context)
  }

  lemma StaysOnTime(u: State, t: State, ev: Event)
    requires Grown(u, t) && Invariant(t) && Executing(t) && ev in u.inserted && ev.key.uid != 0
    ensures OnTime(t, ev)
  {
    hide Invariant, Grown, Executing;
    InsertedStays(u, t, ev);
    if t.currentUid == ev.key.uid { CurrentEvent(t, ev); }
  }

  /**
   An event scheduled at time T with delay d is from then on in just one of the queue, the executed events and the
   removed ones, in the queue only until T + d.  While it is executed the time is T + d and the context the caller's,
   or the one it was given.
   */
  lemma EveryRunIsOnTime(steps: seq<Step>, i: nat)
    requires Legal(INITIAL, steps) && i < |steps| && Inserts(steps[i]) && !steps[i].DrainOne?
    ensures var s, t := Before(steps, i), After(INITIAL, steps);
      var delay := if steps[i].ScheduleNow? then 0 else steps[i].delay;
      var context := if steps[i].ScheduleWithContext? then steps[i].context else s.currentContext;
      && 0 <= s.currentTs + delay < B64
      && OnTime(t, Event(steps[i].impl, Key(s.currentTs + delay, s.uid, context)))
  {
    hide Apply, Enabled, NewOf, Invariant, QueueAhead, Legal, After, Before, Executing, Grown, OnTime;
    var s, u, t := RunAround(steps, i);
    NewIs(s, steps[i]);
    StaysOnTime(u, t, NewOf(s, steps[i]));
  }

  lemma NewIs(s: State, step: Step)
    requires Invariant(s) && Enabled(s, step) && Inserts(step) && !step.DrainOne?
    ensures var delay := if step.ScheduleNow? then 0 else step.delay;
      var context := if step.ScheduleWithContext? then step.context else s.currentContext;
      && 0 <= s.currentTs + delay < B64
      && NewOf(s, step) == Event(step.impl, Key(s.currentTs + delay, s.uid, context))
    ensures NewOf(s, step) in Apply(s, step).inserted && NewOf(s, step).key.uid != 0
  {
    assert Apply(s, step).inserted == s.inserted + [NewOf(s, step)];
  }

  lemma InsertedStays(u: State, t: State, ev: Event)
    requires Grown(u, t) && Invariant(t) && ev in u.inserted
    ensures ev in t.inserted && multiset(t.queue)[ev] + multiset(t.executed)[ev] + multiset(t.removed)[ev] == 1
    ensures ev in t.queue ==> t.currentTs <= ev.key.ts
  {
    assert ev in t.inserted;
    DistinctOnce(t.inserted, ev);
    assert multiset(t.inserted)[ev] == 1;
    if ev in t.queue {
      var k :| 0 <= k < |t.queue| && t.queue[k] == ev;
      assert Less(Now(t), t.queue[k].key);
    }
  }

  /** The event being executed is the one with the current unique id. */
  lemma CurrentEvent(t: State, ev: Event)
    requires Executing(t) && Invariant(t) && ev in t.inserted && t.currentUid == ev.key.uid && ev.key.uid != 0
    ensures ev in t.executed && t.currentTs == ev.key.ts && t.currentContext == ev.key.context
  {
    var last := t.executed[|t.executed| - 1];
    assert last in multiset(t.executed) && last in multiset(t.inserted);
    var j, k :| 0 <= j < |t.inserted| && t.inserted[j] == last && 0 <= k < |t.inserted| && t.inserted[k] == ev;
  }

  // ---------- events handed over ----------

  /**
   An event that another thread hands over at time T with delay d is from then on on its way or delivered, with its
   own context and implementation and a time of at least T + d.
   */
  lemma EveryRunDelivers(steps: seq<Step>, i: nat)
    requires Legal(INITIAL, steps) && i < |steps| && steps[i].HandOver? && 0 <= steps[i].delay < B64
    ensures var s, t, n := Before(steps, i), After(INITIAL, steps), |Before(steps, i).pushed|;
      var p := Pending(steps[i].impl, steps[i].context, steps[i].delay);
      && n < |t.pushed| && t.pushed[n] == p
      && (|t.delivered| <= n ==> p in t.drained + t.handOver)
      && (n < |t.delivered| ==>
            var e := t.delivered[n];
            && e.impl == p.impl && e.key.context == p.context && s.currentTs + p.delay <= e.key.ts
            && multiset(t.queue)[e] + multiset(t.executed)[e] + multiset(t.removed)[e] == 1)
  {
    hide Apply, Enabled, Invariant, Legal, After, Before, Executing;
    var s, u, t := RunAround(steps, i);
    PushIs(s, steps[i]);
    Delivered(t, |s.pushed|);
  }

  lemma PushIs(s: State, step: Step)
    requires Invariant(s) && Enabled(s, step) && step.HandOver?
    ensures 0 <= step.delay < B64 && |s.pushTimes| == |s.pushed|
    ensures var u := Apply(s, step);
      u.pushed == s.pushed + [Pending(step.impl, step.context, step.delay)] && u.pushTimes == s.pushTimes + [s.currentTs]
  {
  }

  lemma Delivered(t: State, n: nat)
    requires Invariant(t) && n < |t.pushed|
    ensures |t.pushTimes| == |t.pushed|
    ensures |t.delivered| <= n ==> t.pushed[n] in t.drained + t.handOver
    ensures n < |t.delivered| ==>
      var p, e := t.pushed[n], t.delivered[n];
      && e.impl == p.impl && e.key.context == p.context && t.pushTimes[n] + p.delay <= e.key.ts
      && multiset(t.queue)[e] + multiset(t.executed)[e] + multiset(t.removed)[e] == 1
  {
    hide QueueAhead, ExecutedBehind, IssuedKnown, DestroysInOrder, DistinctUids;
    if |t.delivered| <= n {
      assert t.pushed[n] == t.pushed[|t.delivered|..][n - |t.delivered|];
    } else {
      DistinctOnce(t.inserted, t.delivered[n]);
      assert multiset(t.inserted)[t.delivered[n]] == 1;
    }
  }

  // ---------- cancelled and removed events ----------

  /** An event id that has expired stays expired; the id of a destroy event does so once it is marked. */
  lemma ExpiredStays(s: State, t: State, id: EventId)
    requires Grown(s, t) && IsExpired(s, id) && (id.uid == DESTROY_UID ==> id.impl == 0 || id.impl in s.cancelled)
    ensures IsExpired(t, id)
  {
  }

  /** After a call of Cancel the id is expired for good, and the mark of its event stays. */
  lemma EveryRunCancels(steps: seq<Step>, i: nat)
    requires Legal(INITIAL, steps) && i < |steps| && steps[i].Cancel?
    ensures var s, u, t, id := Before(steps, i), Before(steps, i + 1), After(INITIAL, steps), steps[i].id;
      && IsExpired(u, id)
      && (!IsExpired(s, id) ==> id.impl in t.cancelled)
      && (id.uid != DESTROY_UID || !IsExpired(s, id) ==> IsExpired(t, id))
      && (id in s.issued && id.uid != DESTROY_UID && !IsExpired(s, id) ==> EventOf(id) in s.queue)
  {
    hide Apply, Enabled, Invariant, Legal, After, Before, Executing, IsExpired, Grown;
    var s, u, t := RunAround(steps, i);
    var id := steps[i].id;
    CancelIs(s, id);
    MarksStay(u, t);
    if id.uid != DESTROY_UID || !IsExpired(s, id) { ExpiredStays(u, t, id); }
    if id in s.issued { Waiting(s, id); }
  }

  lemma CancelIs(s: State, id: EventId)
    requires Enabled(s, Cancel(id))
    ensures var u := Apply(s, Cancel(id));
      && IsExpired(u, id) && u.cancelled == s.cancelled + if IsExpired(s, id) then {} else {id.impl}
  {
  }

  lemma MarksStay(s: State, t: State)
    requires Grown(s, t)
    ensures s.cancelled <= t.cancelled
  {
  }

  lemma Waiting(s: State, id: EventId)
    requires Invariant(s) && id in s.issued
    ensures id.uid != DESTROY_UID && !IsExpired(s, id) ==> EventOf(id) in s.queue
  {
    if id.uid != DESTROY_UID { ExpiredExact(s, id); }
  }

  /** An event that is removed before it expires is never executed, and its id is expired for good. */
  lemma EveryRunRemoves(steps: seq<Step>, i: nat)
    requires Legal(INITIAL, steps) && i < |steps| && steps[i].Remove? && steps[i].id.uid != DESTROY_UID
    ensures var s, t, id := Before(steps, i), After(INITIAL, steps), steps[i].id;
      && IsExpired(t, id)
      && (!IsExpired(s, id) ==> EventOf(id) in s.queue && EventOf(id) in t.removed && EventOf(id) !in t.queue && EventOf(id) !in t.executed)
  {
    hide Apply, Enabled, Invariant, Legal, After, Before, Executing, IsExpired, Grown;
    var s, u, t := RunAround(steps, i);
    var id := steps[i].id;
    RemovalIs(s, id);
    ExpiredStays(u, t, id);
    if !IsExpired(s, id) { RemovedStays(u, t, EventOf(id)); }
  }

  lemma RemovalIs(s: State, id: EventId)
    requires Invariant(s) && Enabled(s, Remove(id)) && id.uid != DESTROY_UID
    ensures var u := Apply(s, Remove(id));
      IsExpired(u, id) && (!IsExpired(s, id) ==> EventOf(id) in s.queue && EventOf(id) in u.removed)
  {
    hide Inserted, Without, HandedOver, PushedBefore, DestroysInOrder;
    if !IsExpired(s, id) { ExpiredExact(s, id); }
  }

  lemma RemovedStays(u: State, t: State, ev: Event)
    requires Grown(u, t) && Invariant(t) && ev in u.removed
    ensures ev in t.removed && ev !in t.queue && ev !in t.executed
  {
    hide QueueAhead, ExecutedBehind, IssuedKnown, HandedOver, PushedBefore, DestroysInOrder, DistinctUids;
    DistinctOnce(t.inserted, ev);
    assert ev in t.removed && ev in multiset(t.removed);
    assert multiset(t.inserted)[ev] == multiset(t.queue)[ev] + multiset(t.executed)[ev] + multiset(t.removed)[ev];
    assert multiset(t.queue)[ev] == 0 && multiset(t.executed)[ev] == 0;
  }

  /**
   The id of a destroy event is expired when it is null or marked, or when it was taken or removed as often as it was
   scheduled.
   */
  lemma EveryRunDestroyExpires(steps: seq<Step>, id: EventId)
    requires Legal(INITIAL, steps) && id.uid == DESTROY_UID
    ensures var t := After(INITIAL, steps);
      IsExpired(t, id) <==>
        id.impl == 0 || id.impl in t.cancelled
        || multiset(t.destroyScheduled)[id] == multiset(t.destroyed)[id] + multiset(t.destroyRemoved)[id]
  {
    hide QueueAhead, ExecutedBehind, IssuedKnown, Conserved, HandedOver, PushedBefore, Legal, After, Among;
    InitialInvariant();
    RunKeepsInvariant(INITIAL, steps);
    var t := After(INITIAL, steps);
    assert multiset(t.destroyed + t.destroyEvents) == multiset(t.destroyed) + multiset(t.destroyEvents);
    assert id in t.destroyEvents <==> id in multiset(t.destroyEvents);
  }
}
