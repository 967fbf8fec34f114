/**
 The binary-heap scheduler (heap-scheduler.cc).  The vector's item 0 is never used, so that item i
 has its parent at i / 2 and its children at 2 i and 2 i + 1.
 */
module HeapScheduler {
  import opened Words
  import opened Events

  ghost predicate HeapOrdered(h: seq<Event>)
  {
    forall i :: 2 <= i < |h| ==> !Less(h[i].key, h[i / 2].key)
  }

  function Exch(h: seq<Event>, a: nat, b: nat): (r: seq<Event>)
    requires a < |h| && b < |h|
    ensures |r| == |h|
  {
    h[a := h[b]][b := h[a]]
  }

  function Smallest(h: seq<Event>, a: nat, b: nat): (c: nat)
    requires a < |h| && b < |h|
  {
    if Less(h[a].key, h[b].key) then a else b
  }

  /** The item at i exchanged with its parents while it is below them. */
  function SiftUp(h: seq<Event>, i: nat): (r: seq<Event>)
    requires 1 <= i < |h|
    ensures |r| == |h|
    decreases i
  {
    if i == 1 || !Less(h[i].key, h[i / 2].key) then h else SiftUp(Exch(h, i, i / 2), i / 2)
  }

  /** The item at i exchanged with its smaller children until it is below both. */
  function SiftDown(h: seq<Event>, i: nat): (r: seq<Event>)
    requires 1 <= i
    ensures |r| == |h|
    decreases |h| - i
  {
    if 2 * i >= |h| then h
    else if 2 * i + 1 >= |h| then
      if Less(h[i].key, h[2 * i].key) then h else Exch(h, i, 2 * i)
    else
      var c := Smallest(h, 2 * i, 2 * i + 1);
      if Less(h[i].key, h[c].key) then h else SiftDown(Exch(h, i, c), c)
  }

  function Bag(h: seq<Event>): (m: multiset<Event>)
    requires |h| >= 1
  {
    multiset(h[1..])
  }

  lemma ExchBag(h: seq<Event>, a: nat, b: nat)
    requires 1 <= a < |h| && 1 <= b < |h|
    ensures Bag(Exch(h, a, b)) == Bag(h)
  {
    var t := h[1..];
    assert Exch(h, a, b)[1..] == t[a - 1 := t[b - 1]][b - 1 := t[a - 1]];
  }

  lemma {:induction false} SiftUpBag(h: seq<Event>, i: nat)
    requires 1 <= i < |h|
    ensures Bag(SiftUp(h, i)) == Bag(h)
    decreases i
  {
    if i > 1 && Less(h[i].key, h[i / 2].key) {
      ExchBag(h, i, i / 2);
      SiftUpBag(Exch(h, i, i / 2), i / 2);
    }
  }

  lemma {:induction false} SiftDownBag(h: seq<Event>, i: nat)
    requires 1 <= i && |h| >= 1
    ensures Bag(SiftDown(h, i)) == Bag(h)
    decreases |h| - i
  {
    if 2 * i + 1 < |h| {
      var c := Smallest(h, 2 * i, 2 * i + 1);
      ExchBag(h, i, c);
      if !Less(h[i].key, h[c].key) { SiftDownBag(Exch(h, i, c), c); }
    } else if 2 * i < |h| {
      ExchBag(h, i, 2 * i);
    }
  }

  /** Heap order everywhere except between i and its parent, whose order with i's children is kept. */
  ghost predicate OrderedAbove(h: seq<Event>, i: nat)
  {
    && (forall j :: 2 <= j < |h| && j != i ==> !Less(h[j].key, h[j / 2].key))
    && (forall j :: 4 <= j < |h| && j / 2 == i ==> !Less(h[j].key, h[j / 2 / 2].key))
  }

  /** Heap order everywhere except between i and its children, whose order with i's parent is kept. */
  ghost predicate OrderedBelow(h: seq<Event>, i: nat)
  {
    && (forall j :: 2 <= j < |h| && j / 2 != i ==> !Less(h[j].key, h[j / 2].key))
    && (forall j :: 4 <= j < |h| && j / 2 == i ==> !Less(h[j].key, h[j / 2 / 2].key))
  }

  lemma {:induction false} SiftUpOrders(h: seq<Event>, i: nat)
    requires 1 <= i < |h| && OrderedAbove(h, i)
    ensures HeapOrdered(SiftUp(h, i))
    decreases i
  {
    if i > 1 && Less(h[i].key, h[i / 2].key) {
      var g, p := Exch(h, i, i / 2), i / 2;
      forall j | 2 <= j < |g| && j != p ensures !Less(g[j].key, g[j / 2].key) {
        if j == i {
        } else if j / 2 == i {
          assert !Less(h[j].key, h[j / 2 / 2].key);
        } else if j / 2 == p {
          assert !Less(h[j].key, h[j / 2].key);
        }
      }
      forall j | 4 <= j < |g| && j / 2 == p ensures !Less(g[j].key, g[j / 2 / 2].key) {
        assert !Less(h[p].key, h[p / 2].key);
        if j != i { assert !Less(h[j].key, h[j / 2].key); }
      }
      SiftUpOrders(g, p);
    }
  }

  lemma {:induction false} SiftDownOrders(h: seq<Event>, i: nat)
    requires 1 <= i && OrderedBelow(h, i)
    ensures HeapOrdered(SiftDown(h, i))
    decreases |h| - i
  {
    if 2 * i < |h| {
      var c := if 2 * i + 1 < |h| then Smallest(h, 2 * i, 2 * i + 1) else 2 * i;
      forall j | 2 <= j < |h| && j / 2 == i ensures !Less(h[j].key, h[c].key) {
        assert j == 2 * i || j == 2 * i + 1;
      }
      if !Less(h[i].key, h[c].key) {
        var g := Exch(h, i, c);
        SiftDownStep(h, i, c);
        if 2 * i + 1 < |h| { SiftDownOrders(g, c); }
      } else {
        forall j | 2 <= j < |h| ensures !Less(h[j].key, h[j / 2].key) {
          if j / 2 == i { assert !Less(h[j].key, h[c].key); }
        }
      }
    }
  }

  lemma SiftDownStep(h: seq<Event>, i: nat, c: nat)
    requires 1 <= i && OrderedBelow(h, i) && c / 2 == i && c < |h| && !Less(h[i].key, h[c].key)
    requires forall j :: 2 <= j < |h| && j / 2 == i ==> !Less(h[j].key, h[c].key)
    ensures OrderedBelow(Exch(h, i, c), c)
  {
    var g := Exch(h, i, c);
    forall j | 2 <= j < |g| && j / 2 != c ensures !Less(g[j].key, g[j / 2].key) {
      if j == i {
        assert 4 <= c && !Less(h[c].key, h[c / 2 / 2].key);
      } else if j / 2 == i {
        if j != c { assert !Less(h[j].key, h[c].key); }
      } else {
        assert j != c && j / 2 != i;
      }
    }
    forall j | 4 <= j < |g| && j / 2 == c ensures !Less(g[j].key, g[j / 2 / 2].key) {
      assert !Less(h[j].key, h[j / 2].key);
    }
  }

  lemma {:induction false} RootIsLeast(h: seq<Event>, i: nat)
    requires HeapOrdered(h) && 1 <= i < |h|
    ensures !Less(h[i].key, h[1].key)
  {
    if i > 1 { RootIsLeast(h, i / 2); }
  }

  /** The item at i replaced by the last one, which is then moved down, never up. */
  function Removed(h: seq<Event>, i: nat): (r: seq<Event>)
    requires 1 <= i < |h|
    ensures |r| == |h| - 1
  {
    SiftDown(Exch(h, i, |h| - 1)[..|h| - 1], i)
  }

  /** The exchange with the last item and the cut take one item away. */
  lemma CutBag(h: seq<Event>, i: nat, n: nat)
    requires 1 <= i <= n && |h| == n + 1
    ensures Bag(Exch(h, i, n)[..n]) == Bag(h) - multiset{h[i]}
  {
    var g := Exch(h, i, n);
    assert g[n] == h[i];
    ExchBag(h, i, n);
    hide Exch, Bag;
    BagSnoc(g, n);
    PlusMinus(Bag(g[..n]), h[i]);
  }

  lemma RemovedBag(h: seq<Event>, i: nat)
    requires 1 <= i < |h|
    ensures Bag(Removed(h, i)) == Bag(h) - multiset{h[i]}
  {
    hide SiftDown, Exch, Bag;
    CutBag(h, i, |h| - 1);
    SiftDownBag(Exch(h, i, |h| - 1)[..|h| - 1], i);
  }

  lemma PlusMinus(m: multiset<Event>, e: Event)
    ensures m + multiset{e} - multiset{e} == m
  {
  }

  lemma BagSnoc(g: seq<Event>, n: nat)
    requires n >= 1 && |g| == n + 1
    ensures Bag(g) == Bag(g[..n]) + multiset{g[n]}
  {
    assert g[1..] == g[..n][1..] + [g[n]];
  }

  /** The item that fills the hole at i is not below the hole's parent. */
  predicate FillFits(h: seq<Event>, i: nat)
    requires 1 <= i < |h|
  {
    i == |h| - 1 || i == 1 || !Less(h[|h| - 1].key, h[i / 2].key)
  }

  /** Removal keeps heap order exactly when the last item may stand below the parent of the hole. */
  lemma RemoveKeepsOrderIff(h: seq<Event>, i: nat)
    requires 1 <= i < |h| && HeapOrdered(h)
    ensures HeapOrdered(Removed(h, i)) <==> FillFits(h, i)
  {
    var g := Exch(h, i, |h| - 1)[..|h| - 1];
    if i == |h| - 1 {
      assert g == h[..i];
    } else if FillFits(h, i) {
      HoleOrderedBelow(h, i);
      SiftDownOrders(g, i);
    } else {
      FillStays(h, i);
    }
  }

  lemma HoleOrderedBelow(h: seq<Event>, i: nat)
    requires 1 <= i < |h| - 1 && HeapOrdered(h) && FillFits(h, i)
    ensures OrderedBelow(Exch(h, i, |h| - 1)[..|h| - 1], i)
  {
    var g := Exch(h, i, |h| - 1)[..|h| - 1];
    forall j | 2 <= j < |g| && j / 2 != i ensures !Less(g[j].key, g[j / 2].key) {
      assert !Less(h[j].key, h[j / 2].key);
    }
    forall j | 4 <= j < |g| && j / 2 == i ensures !Less(g[j].key, g[j / 2 / 2].key) {
      assert !Less(h[j].key, h[i].key) && !Less(h[i].key, h[i / 2].key);
    }
  }

  /** A fill below the hole's parent is below the hole's children too, and so is left where it is. */
  lemma FillStays(h: seq<Event>, i: nat)
    requires 1 <= i < |h| - 1 && HeapOrdered(h) && !FillFits(h, i)
    ensures !HeapOrdered(Removed(h, i))
  {
    var g := Exch(h, i, |h| - 1)[..|h| - 1];
    assert !Less(h[i].key, h[i / 2].key);
    forall j | 2 <= j < |g| && j / 2 == i ensures Less(g[i].key, g[j].key) {
      assert !Less(h[j].key, h[i].key);
    }
    assert SiftDown(g, i) == g;
    assert Less(g[i].key, g[i / 2].key);
  }

  /** The heap h holds exactly the events of the list q. */
  ghost predicate Holds(h: seq<Event>, q: seq<Event>)
  {
    |h| >= 1 && EventList(q) && Bag(h) == multiset(q)
  }

  lemma ItemIsQueued(h: seq<Event>, q: seq<Event>, i: nat)
    requires Holds(h, q) && 1 <= i < |h|
    ensures h[i] in q && q != []
  {
    assert h[i] == h[1..][i - 1] && h[i] in multiset(q);
  }

  lemma EventIsHeld(h: seq<Event>, q: seq<Event>, ev: Event)
    requires Holds(h, q) && ev in q
    ensures |h| > 1 && ev in h[1..]
  {
    assert ev in multiset(q) && ev in Bag(h);
  }

  lemma SameUidSameEvent(h: seq<Event>, q: seq<Event>, ev: Event, i: nat)
    requires Holds(h, q) && 1 <= i < |h| && ev in q && h[i].key.uid == ev.key.uid
    ensures h[i] == ev
  {
    ItemIsQueued(h, q, i);
  }

  lemma TwoPlaces(t: seq<Event>, a: nat, b: nat)
    requires a < b < |t| && t[a] == t[b]
    ensures multiset(t)[t[a]] >= 2
  {
    var x, y := t[..b], t[b..];
    assert t == x + y && x[a] == y[0];
    assert t[a] in multiset(x) && t[a] in multiset(y);
  }

  /** An event has one place. */
  lemma OnePlace(h: seq<Event>, q: seq<Event>, i: nat, j: nat)
    requires Holds(h, q) && DistinctUids(q) && 1 <= i < |h| && 1 <= j < |h| && h[i] == h[j]
    ensures i == j
  {
    if i != j {
      var a, b := if i < j then i else j, if i < j then j else i;
      DistinctOnce(q, h[a]);
      hide DistinctUids, EventList;
      TwoPlaces(h[1..], a - 1, b - 1);
    }
  }

  lemma RemovedHolds(h: seq<Event>, q: seq<Event>, i: nat)
    requires Holds(h, q) && 1 <= i < |h|
    ensures Holds(Removed(h, i), Without(q, h[i].key.uid))
  {
    ItemIsQueued(h, q, i);
    RemovedBag(h, i);
    WithoutIsEventList(q, h[i]);
  }

  /** The heap after an insertion. */
  function Pushed(h: seq<Event>, ev: Event): (r: seq<Event>)
    requires |h| >= 1
    ensures |r| == |h| + 1
  {
    SiftUp(h + [ev], |h|)
  }

  lemma AppendBag(h: seq<Event>, ev: Event)
    requires |h| >= 1
    ensures Bag(h + [ev]) == Bag(h) + multiset{ev}
  {
    assert (h + [ev])[1..] == h[1..] + [ev];
  }

  lemma InsertedHolds(h: seq<Event>, q: seq<Event>, ev: Event)
    requires Holds(h, q) && FreshUid(q, ev)
    ensures Holds(SiftUp(h + [ev], |h|), Inserted(q, ev))
  {
    AppendBag(h, ev);
    SiftUpBag(h + [ev], |h|);
    InsertedIsEventList(q, ev);
  }

  lemma InsertedOrders(h: seq<Event>, ev: Event)
    requires |h| >= 1 && HeapOrdered(h)
    ensures HeapOrdered(SiftUp(h + [ev], |h|))
  {
    var g := h + [ev];
    assert OrderedAbove(g, |h|) by {
      assert forall j :: 2 <= j < |h| ==> g[j] == h[j] && g[j / 2] == h[j / 2];
    }
    SiftUpOrders(g, |h|);
  }

  lemma RootIsFirst(h: seq<Event>, q: seq<Event>)
    requires Holds(h, q) && HeapOrdered(h) && |h| > 1
    ensures q != [] && h[1] == q[0]
  {
    ItemIsQueued(h, q, 1);
    assert q[0] in Bag(h);
    var k :| 0 <= k < |h[1..]| && h[1..][k] == q[0];
    RootIsLeast(h, k + 1);
    FirstIsLeast(q, h[1]);
  }

  // The item that fills place zero.
  const EMPTY: Event := Event(0, Key(0, 0, 0))

  class HeapScheduler {
    var heap: seq<Event>
    ghost var queue: seq<Event>  // the same events, in order

    ghost predicate Valid()
      reads this
    {
      Holds(heap, queue) && HeapOrdered(heap)
    }

    constructor ()
      ensures Valid() && queue == [] && heap == [EMPTY]
    {
      heap := [EMPTY];
      queue := [];
    }

    predicate IsEmpty()
      requires Holds(heap, queue)
      reads this
      ensures IsEmpty() <==> queue == []
    {
      assert |multiset(queue)| == |queue| && |Bag(heap)| == |heap| - 1;
      |heap| == 1
    }

    method BottomUp()
      requires |heap| > 1
      modifies this`heap
      ensures heap == SiftUp(old(heap), |old(heap)| - 1)
    {
      var index := |heap| - 1;
      while index != 1 && Less(heap[index].key, heap[index / 2].key)
        invariant 1 <= index < |heap| == |old(heap)|
        invariant SiftUp(heap, index) == SiftUp(old(heap), |old(heap)| - 1)
      {
        heap := Exch(heap, index, index / 2);
        index := index / 2;
      }
    }

    method TopDown(start: nat)
      requires 1 <= start
      modifies this`heap
      ensures heap == SiftDown(old(heap), start)
    {
      var index := start;
      var right := index * 2 + 1;
      while right < |heap|
        invariant 1 <= index && right == index * 2 + 1 && |heap| == |old(heap)|
        invariant SiftDown(heap, index) == SiftDown(old(heap), start)
        decreases |heap| - index
      {
        var left := index * 2;
        var tmp := Smallest(heap, left, right);
        if Less(heap[index].key, heap[tmp].key) {
          return;
        }
        heap := Exch(heap, index, tmp);
        index := tmp;
        right := index * 2 + 1;
      }
      if index >= |heap| {
        return;
      }
      var left := index * 2;
      if left >= |heap| {
        return;
      }
      if Less(heap[index].key, heap[left].key) {
        return;
      }
      heap := Exch(heap, index, left);
    }

    /** Puts the last item in the hole at i and moves it down. */
    method FillHole(i: nat)
      requires 1 <= i < |heap|
      modifies this`heap
      ensures heap == Removed(old(heap), i)
    {
      heap := Exch(heap, i, |heap| - 1);
      heap := heap[..|heap| - 1];
      TopDown(i);
    }

    /** Inserts one event, keeping heap order if there was heap order. */
    method Insert(ev: Event)
      requires Holds(heap, queue) && FreshUid(queue, ev)
      modifies this
      ensures Holds(heap, queue) && queue == Inserted(old(queue), ev)
      ensures old(Valid()) ==> Valid()
      ensures heap == Pushed(old(heap), ev)
    {
      ghost var h, q := SiftUp(heap + [ev], |heap|), Inserted(queue, ev);
      InsertedHolds(heap, queue, ev);
      if HeapOrdered(heap) { InsertedOrders(heap, ev); }
      heap := heap + [ev];
      BottomUp();
      queue := q;
      assert heap == h;
    }

    method PeekNext() returns (next: Event)
      requires Valid() && !IsEmpty()
      ensures next == queue[0]
    {
      RootIsFirst(heap, queue);
      next := heap[1];
    }

    /** Removes the root; with heap order this is the first event of the list. */
    method RemoveNext() returns (next: Event)
      requires Holds(heap, queue) && !IsEmpty()
      modifies this
      ensures next == old(heap)[1] && heap == Removed(old(heap), 1)
      ensures Holds(heap, queue) && queue == Without(old(queue), next.key.uid)
      ensures old(Valid()) ==> Valid() && next == old(queue)[0] && queue == old(queue)[1..]
    {
      RemovedHolds(heap, queue, 1);
      if HeapOrdered(heap) {
        RootIsFirst(heap, queue);
        RemoveKeepsOrderIff(heap, 1);
      }
      next := heap[1];
      FillHole(1);
      queue := Without(queue, next.key.uid);
    }

    /** The search of Remove: the first item with the event's unique id. */
    method Find(ev: Event) returns (i: nat)
      requires Holds(heap, queue) && ev in queue
      ensures 1 <= i < |heap| && heap[i] == ev
    {
      EventIsHeld(heap, queue, ev);
      i := 1;
      while ev.key.uid != heap[i].key.uid
        invariant 1 <= i < |heap| && ev in heap[i..]
        decreases |heap| - i
      {
        i := i + 1;
      }
      SameUidSameEvent(heap, queue, ev, i);
    }

    /** Removes the named event; heap order survives exactly when the event that fills the hole fits there, which is also reported. */
    method Remove(ev: Event) returns (ghost hole: nat, fits: bool)
      requires Holds(heap, queue) && ev in queue
      modifies this
      ensures 1 <= hole < |old(heap)| && old(heap)[hole] == ev && heap == Removed(old(heap), hole)
      ensures Holds(heap, queue) && queue == Without(old(queue), ev.key.uid)
      ensures fits == FillFits(old(heap), hole)
      ensures old(Valid()) ==> (Valid() <==> fits)
    {
      var i := Find(ev);
      fits := FillFits(heap, i);
      ghost var q := Without(queue, ev.key.uid);
      assert Holds(Removed(heap, i), q) by { RemovedHolds(heap, queue, i); }
      if HeapOrdered(heap) { RemoveKeepsOrderIff(heap, i); }
      hole := i;
      FillHole(i);
      queue := q;
    }
  }

  // ---------- what a misplaced fill leads to ----------

  function At(ts: u32, uid: u32): (e: Event)
  {
    Event(1, Key(ts, uid, 0))
  }

  function PushedAll(h: seq<Event>, es: seq<Event>): (r: seq<Event>)
    requires |h| >= 1
    ensures |r| == |h| + |es|
  {
    if es == [] then h else Pushed(PushedAll(h, es[..|es| - 1]), es[|es| - 1])
  }

  /** Insertions that never pass their parent stay where they are put. */
  lemma {:induction false} PushedInPlace(h: seq<Event>, es: seq<Event>)
    requires |h| == 1
    requires forall i :: 1 <= i < |es| ==> !Less(es[i].key, es[(i + 1) / 2 - 1].key)
    ensures PushedAll(h, es) == h + es
  {
    if es != [] {
      var n := |es| - 1;
      PushedInPlace(h, es[..n]);
      assert h + es[..n] + [es[n]] == h + es;
      if n > 0 { assert (h + es)[(n + 1) / 2] == es[(n + 1) / 2 - 1]; }
    }
  }

  /**
   Insert the times 1, 10, 3, 11, 12, 30, 4 into an empty heap and remove 11: 4 fills its place under 10.  The
   next three events then come out as 1, 3, 10 while the earlier event 4 is still waiting: simulated time
   would run backwards.
   */
  lemma MisplacedFillRunsLate(es: seq<Event>, h0: seq<Event>, h1: seq<Event>, h2: seq<Event>, h3: seq<Event>)
    requires es == [At(1, 4), At(10, 5), At(3, 6), At(11, 7), At(12, 8), At(30, 9), At(4, 10)]
    requires h0 == PushedAll([EMPTY], es) && |h0| == 8
    requires h1 == Removed(h0, 4) && h2 == Removed(h1, 1) && h3 == Removed(h2, 1)
    ensures HeapOrdered(h0) && h0[4] == At(11, 7) && !FillFits(h0, 4)
    ensures h1[1] == At(1, 4) && h2[1] == At(3, 6) && h3[1] == At(10, 5) && At(4, 10) in h3
  {
    var e, a, b, c, d, f, g := EMPTY, At(1, 4), At(10, 5), At(3, 6), At(12, 8), At(30, 9), At(4, 10);
    hide HeapOrdered, PushedAll, Removed;
    SevenInserted(e, a, b, c, At(11, 7), d, f, g);
    SevenOrdered(e, a, b, c, At(11, 7), d, f, g);
    FillsEleven(e, a, b, c, At(11, 7), d, f, g);
    FillsOne(e, a, b, c, d, f, g);
    FillsThree(e, b, c, d, f, g);
  }

  lemma SevenInserted(e: Event, a: Event, b: Event, c: Event, x: Event, d: Event, f: Event, g: Event)
    requires !Less(b.key, a.key) && !Less(c.key, a.key) && !Less(x.key, b.key) && !Less(d.key, b.key)
    requires !Less(f.key, c.key) && !Less(g.key, c.key)
    ensures PushedAll([e], [a, b, c, x, d, f, g]) == [e, a, b, c, x, d, f, g]
  {
    hide PushedAll;
    PushedInPlace([e], [a, b, c, x, d, f, g]);
  }

  lemma SevenOrdered(e: Event, a: Event, b: Event, c: Event, x: Event, d: Event, f: Event, g: Event)
    requires !Less(b.key, a.key) && !Less(c.key, a.key) && !Less(x.key, b.key) && !Less(d.key, b.key)
    requires !Less(f.key, c.key) && !Less(g.key, c.key)
    ensures HeapOrdered([e, a, b, c, x, d, f, g])
  {
  }

  lemma FillsEleven(e: Event, a: Event, b: Event, c: Event, x: Event, d: Event, f: Event, g: Event)
    ensures Removed([e, a, b, c, x, d, f, g], 4) == [e, a, b, c, g, d, f]
  {
    assert Exch([e, a, b, c, x, d, f, g], 4, 7)[..7] == [e, a, b, c, g, d, f];
  }

  lemma FillsOne(e: Event, a: Event, b: Event, c: Event, d: Event, f: Event, g: Event)
    requires !Less(b.key, c.key) && !Less(f.key, c.key)
    ensures Removed([e, a, b, c, g, d, f], 1) == [e, c, b, f, g, d]
  {
    var s, t := [e, f, b, c, g, d], [e, c, b, f, g, d];
    assert Exch([e, a, b, c, g, d, f], 1, 6)[..6] == s;
    assert Smallest(s, 2, 3) == 3 && Exch(s, 1, 3) == t;
    assert SiftDown(s, 1) == SiftDown(t, 3) == t;
  }

  lemma FillsThree(e: Event, b: Event, c: Event, d: Event, f: Event, g: Event)
    requires Less(b.key, f.key) && !Less(d.key, b.key) && !Less(d.key, g.key)
    ensures Removed([e, c, b, f, g, d], 1) == [e, b, g, f, d]
  {
    var s, t := [e, d, b, f, g], [e, b, d, f, g];
    assert Exch([e, c, b, f, g, d], 1, 5)[..5] == s;
    assert Exch(s, 1, 2) == t;
    assert SiftDown(s, 1) == SiftDown(t, 2) == Exch(t, 2, 4) == [e, b, g, f, d];
  }
}
