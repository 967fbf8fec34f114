/** The scheduler that keeps its events in one sorted list (list-scheduler.cc). */
module ListScheduler {
  import opened Events

  class ListScheduler {
    var events: seq<Event>

    constructor ()
      ensures events == []
    {
      events := [];
    }

    method Insert(ev: Event)
      modifies this
      ensures events == Inserted(old(events), ev)
    {
      var i := 0;
      while i < |events|
        invariant i <= |events| && events == old(events)
        invariant Rank(events, ev.key) == i + Rank(events[i..], ev.key)
      {
        if Less(ev.key, events[i].key) {
          events := events[..i] + [ev] + events[i..];
          return;
        }
        assert events[i..][1..] == events[i + 1..];
        i := i + 1;
      }
      events := events + [ev];
    }

    predicate IsEmpty()
      reads this
    {
      events == []
    }

    method PeekNext() returns (next: Event)
      requires !IsEmpty()
      ensures next == events[0]
    {
      next := events[0];
    }

    method RemoveNext() returns (next: Event)
      requires !IsEmpty()
      modifies this
      ensures next == old(events)[0] && events == old(events)[1..]
    {
      next := events[0];
      events := events[1..];
    }

    method Remove(ev: Event)
      requires DistinctUids(events) && ev in events
      modifies this
      ensures events == Without(old(events), ev.key.uid)
    {
      var i := 0;
      while i < |events|
        invariant i <= |events| && events == old(events)
        invariant ev !in events[..i]
      {
        if events[i].key.uid == ev.key.uid {
          assert ev.impl == events[i].impl;
          WithoutIs(events, ev.key.uid, i);
          events := events[..i] + events[i + 1..];
          return;
        }
        i := i + 1;
      }
      assert false;
    }
  }
}
