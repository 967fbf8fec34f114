/**
 The three schedulers behind the one interface of scheduler.h.  While an operation reports ok, whichever
 scheduler is in use behaves as the sorted list of its events.
 */
module Schedulers {
  import opened Words
  import opened Events
  import L = ListScheduler
  import H = HeapScheduler
  import C = CalendarScheduler
  import CalendarLists

  // ---------- when a scheduler fails ----------

  /** A calendar with n days that now holds the list would grow to days of width zero. */
  predicate GrowthTraps(q: seq<Event>, n: nat)
  {
    C.Overfull(|q|, n) && CalendarLists.SampledWidth(q) == 0
  }

  predicate ShrinkTraps(q: seq<Event>, n: nat)
  {
    C.Underfull(|q|, n) && CalendarLists.SampledWidth(q) == 0
  }

  /** The events of the list are spread over 2^32 time units or more. */
  predicate Spread(q: seq<Event>)
  {
    |q| >= 2 && q[|q| - 1].key.ts - q[0].key.ts >= B32
  }

  /** A width of zero takes a spread-out list. */
  lemma ZeroWidthIsSpread(q: seq<Event>)
    requires EventList(q) && (forall i :: 0 <= i < |q| ==> q[i].key.ts <= MAX_TIME) && CalendarLists.SampledWidth(q) == 0
    ensures Spread(q)
  {
    if |q| >= 2 && !Spread(q) { C.ShortSpanIsSafe(q); }
  }

  /** Of the items that could be the event, one leaves a hole that the last item does not fit. */
  ghost predicate Misfits(h: seq<Event>, ev: Event)
  {
    exists i :: 1 <= i < |h| && h[i] == ev && !H.FillFits(h, i)
  }

  /** The event has one place, whose hole it is about. */
  lemma MisfitsAt(h: seq<Event>, q: seq<Event>, ev: Event, hole: nat)
    requires H.Holds(h, q) && 1 <= hole < |h| && h[hole] == ev
    ensures Misfits(h, ev) <==> !H.FillFits(h, hole)
  {
    forall i | 1 <= i < |h| && h[i] == ev ensures i == hole {
      H.OnePlace(h, q, i, hole);
    }
  }

  datatype Kind = ListKind | HeapKind | CalendarKind

  datatype Scheduler =
    | UseList(list: L.ListScheduler)
    | UseHeap(heap: H.HeapScheduler)
    | UseCalendar(calendar: C.CalendarScheduler)
  {
    function Kind(): (k: Kind)
    {
      match this
      case UseList(_) => ListKind
      case UseHeap(_) => HeapKind
      case UseCalendar(_) => CalendarKind
    }

    ghost function Repr(): (r: set<object>)
      reads if UseCalendar? then {calendar} else {}
    {
      match this
      case UseList(l) => {l}
      case UseHeap(h) => {h}
      case UseCalendar(c) => {c, c.buckets}
    }

    ghost predicate Valid()
      reads Repr()
    {
      match this
      case UseList(l) => EventList(l.events)
      case UseHeap(h) => h.Valid()
      case UseCalendar(c) => c.Valid()
    }

    /** The events of the scheduler, in order. */
    ghost function Queue(): (q: seq<Event>)
      reads Repr()
    {
      match this
      case UseList(l) => l.events
      case UseHeap(h) => h.queue
      case UseCalendar(c) => c.queue
    }

    /** The earliest time at which the scheduler still takes events. */
    ghost function Floor(): (t: nat)
      reads Repr()
    {
      match this
      case UseCalendar(c) => c.lastPrio
      case _ => 0
    }

    /** The number of days of a calendar; zero for the schedulers that never resize. */
    ghost function Days(): (n: nat)
      reads Repr()
    {
      match this
      case UseCalendar(c) => c.nBuckets
      case _ => 0
    }

    /** Whether the next operation fails, on the state it starts from. */
    ghost predicate InsertTraps(ev: Event)
      reads Repr()
    {
      UseCalendar? && GrowthTraps(Inserted(calendar.queue, ev), calendar.nBuckets)
    }

    ghost predicate RemoveNextTraps()
      reads Repr()
    {
      UseCalendar? && calendar.queue != [] && ShrinkTraps(calendar.queue[1..], calendar.nBuckets)
    }

    ghost predicate RemoveTraps(ev: Event)
      reads Repr()
    {
      match this
      case UseList(_) => false
      case UseHeap(h) => Misfits(h.heap, ev)
      case UseCalendar(c) => ShrinkTraps(Without(c.queue, ev.key.uid), c.nBuckets)
    }

    method IsEmpty() returns (empty: bool)
      requires Valid()
      ensures empty <==> Queue() == []
    {
      match this
      case UseList(l) => empty := l.IsEmpty();
      case UseHeap(h) => empty := h.IsEmpty();
      case UseCalendar(c) => empty := c.IsEmpty();
    }

    /** Fails just in a calendar that grows while the sampled width is zero. */
    method Insert(ev: Event) returns (ok: bool)
      requires Valid() && FreshUid(Queue(), ev) && Floor() <= ev.key.ts <= MAX_TIME && |Queue()| + 1 < B32
      modifies Repr()
      ensures fresh(Repr() - old(Repr()))
      ensures ok ==> Valid() && Queue() == Inserted(old(Queue()), ev) && Floor() == old(Floor())
      ensures !ok <==> old(InsertTraps(ev))
      ensures ok && UseCalendar? ==> Days() == C.DaysAfterInsert(|Queue()|, old(Days()))
    {
      ok := true;
      match this
      case UseList(l) =>
        InsertedIsEventList(l.events, ev);
        l.Insert(ev);
      case UseHeap(h) =>
        h.Insert(ev);
      case UseCalendar(c) =>
        ok := c.Insert(ev);
    }

    /** Fails just in a calendar that shrinks while the sampled width is zero. */
    method RemoveNext() returns (next: Event, ok: bool)
      requires Valid() && Queue() != []
      modifies Repr()
      ensures fresh(Repr() - old(Repr())) && next == old(Queue())[0]
      ensures ok ==> Valid() && Queue() == old(Queue())[1..] && Floor() <= next.key.ts
      ensures !ok <==> old(RemoveNextTraps())
      ensures ok && UseCalendar? ==> Days() == C.DaysAfterRemove(|Queue()|, old(Days()))
    {
      ok := true;
      match this
      case UseList(l) =>
        TailIsEventList(l.events);
        next := l.RemoveNext();
      case UseHeap(h) =>
        assert !h.IsEmpty();
        next := h.RemoveNext();
      case UseCalendar(c) =>
        assert !c.IsEmpty();
        next, ok := c.RemoveNext();
    }

    /** Fails in a calendar as above, and in a heap when the event that fills the hole does not fit there. */
    method Remove(ev: Event) returns (ok: bool)
      requires Valid() && ev in Queue()
      modifies Repr()
      ensures fresh(Repr() - old(Repr()))
      ensures ok ==> Valid() && Queue() == Without(old(Queue()), ev.key.uid) && Floor() == old(Floor())
      ensures !ok <==> old(RemoveTraps(ev))
    {
      hide Misfits, H.FillFits, H.Removed;
      ok := true;
      match this
      case UseList(l) =>
        WithoutIsEventList(l.events, ev);
        l.Remove(ev);
      case UseHeap(h) =>
        ghost var hole, before, q := 0, h.heap, h.queue;
        hole, ok := h.Remove(ev);
        MisfitsAt(before, q, ev, hole);
      case UseCalendar(c) =>
        ok := c.Remove(ev);
    }
  }

  // ---------- moving all events from one scheduler to another ----------

  /** Emptying a calendar of n days, from the k-th of the events on, meets a width of zero. */
  predicate EmptyingTraps(all: seq<Event>, k: nat, n: nat)
    requires k <= |all|
    decreases |all| - k
  {
    k < |all| && (ShrinkTraps(all[k + 1..], n) || EmptyingTraps(all, k + 1, C.DaysAfterRemove(|all| - k - 1, n)))
  }

  predicate FillingTraps(all: seq<Event>, k: nat, n: nat)
    requires k <= |all|
    decreases |all| - k
  {
    k < |all| && (GrowthTraps(all[..k + 1], n) || FillingTraps(all, k + 1, C.DaysAfterInsert(k + 1, n)))
  }

  lemma {:induction false} MoveTrapIsSpread(all: seq<Event>, k: nat, n: nat)
    requires EventList(all) && (forall i :: 0 <= i < |all| ==> all[i].key.ts <= MAX_TIME) && k <= |all|
    requires EmptyingTraps(all, k, n) || FillingTraps(all, k, n)
    ensures Spread(all)
    decreases |all| - k
  {
    var q := if EmptyingTraps(all, k, n) then all[k + 1..] else all[..k + 1];
    if EmptyingTraps(all, k, n) {
      assert all[k + 1..|all|] == q;
      if ShrinkTraps(q, n) { PartIsSpread(all, k + 1, |all|); } else { MoveTrapIsSpread(all, k + 1, C.DaysAfterRemove(|all| - k - 1, n)); }
    } else {
      assert all[0..k + 1] == q;
      if GrowthTraps(q, n) { PartIsSpread(all, 0, k + 1); } else { MoveTrapIsSpread(all, k + 1, C.DaysAfterInsert(k + 1, n)); }
    }
  }

  lemma PartIsSpread(all: seq<Event>, i: nat, j: nat)
    requires EventList(all) && (forall k :: 0 <= k < |all| ==> all[k].key.ts <= MAX_TIME) && i <= j <= |all|
    requires CalendarLists.SampledWidth(all[i..j]) == 0
    ensures Spread(all)
  {
    var q := all[i..j];
    ZeroWidthIsSpread(q);
    assert q[0] == all[i] && q[|q| - 1] == all[j - 1];
    assert i == 0 || Less(all[0].key, all[i].key);
    assert j == |all| || Less(all[j - 1].key, all[|all| - 1].key);
  }

  lemma Appended(q: seq<Event>, j: nat)
    requires EventList(q) && j < |q|
    ensures FreshUid(q[..j], q[j]) && Inserted(q[..j], q[j]) == q[..j + 1]
  {
    Reinserted(q[..j + 1], j, j + 1);
    assert Around(q[..j + 1], j, j + 1) == q[..j] && Around(q[..j + 1], j + 1, j + 1) == q[..j + 1];
  }

  /** What the schedulers' conditions come to while events are moved. */
  lemma TrapsAre(from: Scheduler, to: Scheduler, all: seq<Event>, k: nat)
    requires EventList(all) && k < |all| && from.Queue() == all[k..] && to.Queue() == all[..k]
    ensures from.RemoveNextTraps() <==> from.UseCalendar? && ShrinkTraps(all[k + 1..], from.Days())
    ensures to.InsertTraps(all[k]) <==> to.UseCalendar? && GrowthTraps(all[..k + 1], to.Days())
  {
    Appended(all, k);
    assert all[k..][1..] == all[k + 1..];
  }
}
