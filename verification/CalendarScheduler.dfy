/**
 The calendar queue (calendar-scheduler.cc): an array of sorted buckets, one per day of a year of
 nBuckets days of the given width, that resizes itself.  The whole state is tied to one sorted list:
 bucket b holds, in order, the events of the list that hash to b.
 */
module CalendarScheduler {
  import opened Words
  import opened Events
  import opened CalendarLists

  const MAX_BUCKETS: nat := 0x8000

  /** Powers of two from 1 to 32768. */
  predicate YearLength(n: nat)
  {
    n in {1, 2, 4, 8, 16, 32, 64, 128, 256, 512, 1024, 2048, 4096, 8192, 16384, 32768}
  }

  predicate Overfull(qSize: nat, n: nat)
  {
    qSize > n * 2 && n < MAX_BUCKETS
  }

  predicate Underfull(qSize: nat, n: nat)
  {
    qSize < n / 2
  }

  /** The days of the year after an operation that leaves qSize events. */
  function DaysAfterInsert(qSize: nat, n: nat): (m: nat)
  {
    if Overfull(qSize, n) then n * 2 else n
  }

  function DaysAfterRemove(qSize: nat, n: nat): (m: nat)
  {
    if Underfull(qSize, n) then n / 2 else n
  }

  /** Bucket b holds the list's part for bucket b. */
  ghost predicate FiledIn(bs: seq<seq<Event>>, q: seq<Event>, w: nat, n: nat)
  {
    w > 0 && n > 0 && |bs| == n && forall b :: 0 <= b < n ==> bs[b] == InBucket(q, w, n, b)
  }

  /** The scan position belongs to the last priority, and no event lies before it. */
  ghost predicate Window(q: seq<Event>, w: nat, n: nat, prio: nat, bucket: nat, top: nat)
  {
    && w > 0 && n > 0 && prio <= MAX_TIME
    && bucket == Hash(prio, w, n) && top == (prio / w + 1) * w
    && forall i :: 0 <= i < |q| ==> prio <= q[i].key.ts <= MAX_TIME
  }

  class CalendarScheduler {
    var buckets: array<seq<Event>>
    var nBuckets: nat
    var width: nat
    var lastBucket: nat
    var bucketTop: u64
    var lastPrio: u64
    var qSize: u32
    ghost var queue: seq<Event>  // the same events, in order
    ghost var used: bool         // an event has been inserted

    ghost predicate Filed()
      reads this, buckets
    {
      FiledIn(buckets[..], queue, width, nBuckets)
    }

    ghost predicate InWindow()
      reads this
    {
      Window(queue, width, nBuckets, lastPrio, lastBucket, bucketTop)
    }

    ghost predicate Sound()
      reads this, buckets
    {
      Filed() && EventList(queue) && InWindow() && nBuckets <= MAX_BUCKETS && width < B32
    }

    /**
     The number of days is a power of two and in proportion to the events: at least half as many events as days
     and, short of the longest year, at most twice as many.  A calendar starts with two days and no events.
     */
    ghost predicate Proportioned()
      reads this
    {
      && YearLength(nBuckets)
      && (if used then nBuckets / 2 <= qSize else nBuckets == 2 && qSize == 0)
      && (qSize <= nBuckets * 2 || nBuckets == MAX_BUCKETS)
    }

    ghost predicate Counted()
      reads this, buckets
    {
      Sound() && qSize == |queue|
    }

    ghost predicate Valid()
      reads this, buckets
    {
      Counted() && Proportioned()
    }

    constructor ()
      ensures Valid() && fresh(buckets) && queue == [] && lastPrio == 0 && nBuckets == 2 && width == 1 && !used
    {
      qSize := 0;
      used := false;
      new;
      Init(2, 1, 0);
    }

    method Init(n: nat, w: nat, startPrio: u64)
      requires 0 < n && 0 < w < B32 && startPrio <= MAX_TIME
      modifies this
      ensures fresh(buckets) && nBuckets == n && width == w && lastPrio == startPrio && qSize == old(qSize) && used == old(used)
      ensures queue == [] && Filed() && InWindow()
    {
      DivMod(startPrio, w);
      Distrib(startPrio / w, 1, w);
      QuotientBound(startPrio, w);
      buckets := new seq<Event>[n](_ => []);
      nBuckets := n;
      width := w;
      lastPrio := startPrio;
      lastBucket := Hash(startPrio, w, n);
      bucketTop := (startPrio / w + 1) * w;
      queue := [];
    }

    method SetBucket(b: nat, list: seq<Event>)
      requires b < buckets.Length
      modifies buckets
      ensures buckets[..] == old(buckets[..])[b := list]
    {
      buckets[b] := list;
    }

    /** Files one event in its bucket, in front of the first event that comes after it. */
    method DoInsert(ev: Event)
      requires Filed() && EventList(queue) && FreshUid(queue, ev)
      modifies this`queue, buckets
      ensures Filed() && EventList(queue) && queue == Inserted(old(queue), ev)
    {
      var bucket := Hash(ev.key.ts, width, nBuckets);
      ghost var bs := buckets[..];
      InsertedIsEventList(queue, ev);
      InsertFiled(bs, queue, width, nBuckets, ev);
      queue := Inserted(queue, ev);
      var list := buckets[bucket];
      var i := 0;
      while i < |list|
        invariant i <= |list|
        invariant Rank(list, ev.key) == i + Rank(list[i..], ev.key)
        modifies {}
      {
        if Less(ev.key, list[i].key) {
          break;
        }
        assert list[i..][1..] == list[i + 1..];
        i := i + 1;
      }
      assert Inserted(list, ev) == if i < |list| then list[..i] + [ev] + list[i..] else list + [ev];
      SetBucket(bucket, if i < |list| then list[..i] + [ev] + list[i..] else list + [ev]);
    }

    /** The next event is the first of the list, whether the scan meets its day or has to go round the whole year. */
    method PeekNext() returns (next: Event)
      requires Sound() && queue != []
      ensures next == queue[0]
    {
      ghost var m, d0 := queue[0], lastPrio / width;
      DivMono(lastPrio, m.key.ts, width);
      QuotientBound(lastPrio, width);
      ghost var last := StepOf(d0, m.key.ts / width, nBuckets);
      var i := lastBucket;
      var top := bucketTop;
      next := Event(0, Key(B64 - 1, B32 - 1, 0));
      ghost var k := 0;
      while true
        invariant 0 <= k < nBuckets && i == Step(lastBucket, k, nBuckets)
        invariant top == (d0 + k + 1) * width
        invariant d0 + k <= m.key.ts / width
        invariant k <= last ==> next == m || Less(m.key, next.key)
        invariant k > last ==> next == m
        decreases nBuckets - k
      {
        ScanStep(queue, width, nBuckets, d0, k, last);
        TopAdvances(lastPrio, width, k);
        StepIs(lastBucket, k, nBuckets);
        if buckets[i] != [] {
          var first := buckets[i][0];
          if first.key.ts < top {
            return first;
          }
          if Less(first.key, next.key) {
            next := first;
          }
        }
        i := i + 1;
        i := i % nBuckets;
        top := top + width;
        k := k + 1;
        if i == lastBucket {
          break;
        }
      }
    }

    /** The scan of DoRemoveNext: the day the first event was found on, or the least front of the whole year. */
    method Scan() returns (hit: bool, i: nat, top: u64, minBucket: int, minKey: Key)
      requires Sound() && queue != []
      ensures var m := queue[0].key; var b := Hash(m.ts, width, nBuckets);
        if hit then i == b && top == (m.ts / width + 1) * width else minBucket == b && minKey == m
    {
      ghost var m, d0 := queue[0], lastPrio / width;
      DivMono(lastPrio, m.key.ts, width);
      QuotientBound(lastPrio, width);
      ghost var last := StepOf(d0, m.key.ts / width, nBuckets);
      hit, i, top := false, lastBucket, bucketTop;
      minBucket, minKey := -1, Key(B64 - 1, 0, B32 - 1);
      ghost var k := 0;
      while true
        invariant 0 <= k < nBuckets && i == Step(lastBucket, k, nBuckets) && !hit
        invariant top == (d0 + k + 1) * width
        invariant d0 + k <= m.key.ts / width
        invariant (minKey == m.key && minBucket == Hash(m.key.ts, width, nBuckets)) || (k <= last && Less(m.key, minKey))
        decreases nBuckets - k
      {
        ScanStep(queue, width, nBuckets, d0, k, last);
        TopAdvances(lastPrio, width, k);
        StepIs(lastBucket, k, nBuckets);
        if buckets[i] != [] {
          var next := buckets[i][0];
          if next.key.ts < top {
            hit := true;
            return;
          }
          if Less(next.key, minKey) {
            minKey := next.key;
            minBucket := i;
          }
        }
        i := i + 1;
        i := i % nBuckets;
        top := top + width;
        k := k + 1;
        if i == lastBucket {
          break;
        }
      }
    }

    /** Takes the front off the bucket that holds the first event. */
    method PopFront(b: nat) returns (next: Event)
      requires Filed() && EventList(queue) && queue != [] && b == Hash(queue[0].key.ts, width, nBuckets)
      modifies this`queue, buckets
      ensures Filed() && EventList(queue) && next == old(queue)[0] && queue == old(queue)[1..]
    {
      PopFiled(buckets[..], queue, width, nBuckets);
      TailIsEventList(queue);
      next := buckets[b][0];
      SetBucket(b, buckets[b][1..]);
      queue := queue[1..];
    }

    /** Takes the first event off the list and moves the scan to its day. */
    method DoRemoveNext() returns (next: Event)
      requires Sound() && queue != []
      modifies this`lastBucket, this`bucketTop, this`lastPrio, this`queue, buckets
      ensures Sound() && next == old(queue)[0] && queue == old(queue)[1..] && lastPrio == next.key.ts
    {
      hide FiledIn, InBucket, Hash, EventList;
      var hit, i, top, minBucket, minKey := Scan();
      PopWindow(queue, width, nBuckets);
      if hit {
        next := PopFront(i);
        lastBucket := i;
        lastPrio := next.key.ts;
        bucketTop := top;
      } else {
        lastPrio := minKey.ts;
        lastBucket := Hash(minKey.ts, width, nBuckets);
        bucketTop := (minKey.ts / width + 1) * width;
        next := PopFront(minBucket);
      }
    }

    // ---------- resizing ----------

    /** The scan position and the sizes, which filing and taking off events leave alone. */
    ghost predicate SameLayout(n: nat, w: nat, bs: array<seq<Event>>, size: nat)
      reads this
    {
      nBuckets == n && width == w && buckets == bs && qSize == size
    }

    method TakeSamples(count: nat) returns (samples: seq<Event>)
      requires Sound() && count <= |queue|
      modifies this`lastBucket, this`bucketTop, this`lastPrio, this`queue, buckets
      ensures Sound()
      ensures samples == old(queue)[..count] && queue == old(queue)[count..]
    {
      samples := [];
      for i := 0 to count
        invariant Sound() && SameLayout(old(nBuckets), old(width), old(buckets), old(qSize))
        invariant samples == old(queue)[..i] && queue == old(queue)[i..]
      {
        var next := DoRemoveNext();
        samples := samples + [next];
      }
    }

    method PutBackOne(ev: Event, ghost q: seq<Event>, ghost j: nat, ghost n: nat)
      requires Filed() && EventList(queue) && EventList(q) && j < n <= |q| && ev == q[j] && queue == Around(q, j, n)
      modifies this`queue, buckets
      ensures Filed() && EventList(queue) && queue == Around(q, j + 1, n)
    {
      Reinserted(q, j, n);
      DoInsert(ev);
    }

    method PutBack(samples: seq<Event>, ghost q: seq<Event>)
      requires Filed() && EventList(queue) && EventList(q) && |samples| <= |q|
      requires samples == q[..|samples|] && queue == q[|samples|..]
      modifies this`queue, buckets
      ensures Filed() && queue == q
    {
      AroundEnds(q, |samples|);
      for i := 0 to |samples|
        invariant Filed() && EventList(queue) && SameLayout(old(nBuckets), old(width), old(buckets), old(qSize))
        invariant queue == Around(q, i, |samples|)
      {
        PutBackOne(samples[i], q, i, |samples|);
      }
    }

    /** The sum over neighbouring samples at most cutoff apart; none of the differences wraps round. */
    static method Measure(samples: seq<Event>, cutoff: u64) returns (total: u64)
      requires samples != [] && Sorted(samples)
      ensures total == Separation(samples, cutoff)
    {
      total := 0;
      var next := 1;
      while next != |samples|
        invariant 1 <= next <= |samples| && total == Separation(samples[..next], cutoff)
      {
        assert Less(samples[next - 1].key, samples[next].key);
        assert samples[..next + 1][..next] == samples[..next];
        SeparationBounds(samples[..next + 1], cutoff);
        var diff: u64 := samples[next].key.ts - samples[next - 1].key.ts;
        if diff <= cutoff {
          total := total + diff;
        }
        next := next + 1;
      }
      assert samples[..next] == samples;
    }

    /**
     The width for the next year, from up to 25 events that are taken off and put back.  Nothing else is
     left changed: the list, every bucket and the scan position are as they were.
     */
    method CalculateNewWidth() returns (w: u32)
      requires Counted()
      modifies this`lastBucket, this`bucketTop, this`lastPrio, this`queue, buckets
      ensures w == SampledWidth(queue)
      ensures Counted() && queue == old(queue) && buckets[..] == old(buckets[..])
      ensures lastBucket == old(lastBucket) && bucketTop == old(bucketTop) && lastPrio == old(lastPrio)
    {
      if qSize < 2 {
        return 1;
      }
      var nSamples := if qSize <= 5 then qSize else 5 + qSize / 10;
      if nSamples > 25 {
        nSamples := 25;
      }
      var bucket, top, prio := lastBucket, bucketTop, lastPrio;
      ghost var q := queue;
      var samples := TakeSamples(nSamples);
      PutBack(samples, q);
      lastBucket := bucket;
      bucketTop := top;
      lastPrio := prio;
      w := WidthOf(samples, q);
    }

    static method WidthOf(samples: seq<Event>, ghost q: seq<Event>) returns (w: u32)
      requires EventList(q) && |q| >= 2 && samples == q[..SampleCount(|q|)]
      requires forall i :: 0 <= i < |q| ==> q[i].key.ts <= MAX_TIME
      ensures w == SampledWidth(q)
    {
      SeparationBounds(samples, B64 - 1);
      var total := Measure(samples, B64 - 1);
      QuotientBound(total, |samples| - 1);
      var twiceAvg: u64 := total / (|samples| - 1) * 2;
      total := Measure(samples, twiceAvg);
      DivMod(total * 3, B64);
      total := total * 3 % B64;
      total := if total > 1 then total else 1;
      DivMod(total, B32);
      w := total % B32;
    }

    /** Files the events of one old bucket in the new year. */
    method Refile(list: seq<Event>, ghost q: seq<Event>, ghost w: nat, ghost n: nat, ghost b: nat)
      requires Filed() && EventList(queue) && EventList(q) && w > 0 && n > 0 && b < n && list == InBucket(q, w, n, b)
      requires forall e :: e in queue <==> e in q && Hash(e.key.ts, w, n) < b
      modifies this`queue, buckets
      ensures Filed() && EventList(queue)
      ensures forall e :: e in queue <==> e in q && Hash(e.key.ts, w, n) < b + 1
    {
      InBucketIsEventList(q, w, n, b);
      hide FiledIn, Inserted, InBucket;
      for j := 0 to |list|
        invariant Filed() && EventList(queue) && SameLayout(old(nBuckets), old(width), old(buckets), old(qSize))
        invariant forall e :: e in queue <==> e in list[..j] || (e in q && Hash(e.key.ts, w, n) < b)
      {
        StillToFile(queue, list, q, w, n, b, j);
        InsertedMembers(queue, list[j]);
        DoInsert(list[j]);
        assert list[..j + 1] == list[..j] + [list[j]];
      }
      forall e ensures e in list <==> e in q && Hash(e.key.ts, w, n) == b {
        InBucketMembers(q, w, n, b, e);
      }
      assert list[..|list|] == list;
    }

    /** A new year with the same events: the list does not change, whatever the new width. */
    method DoResize(newSize: nat, newWidth: nat)
      requires Sound() && 0 < newSize <= MAX_BUCKETS && 0 < newWidth < B32
      modifies this, buckets
      ensures Sound() && fresh(buckets) && queue == old(queue)
      ensures nBuckets == newSize && width == newWidth && lastPrio == old(lastPrio) && qSize == old(qSize) && used == old(used)
    {
      var oldBuckets, oldNBuckets := buckets, nBuckets;
      ghost var q, w := queue, width;
      Init(newSize, newWidth, lastPrio);
      for i := 0 to oldNBuckets
        invariant fresh(buckets) && oldBuckets[..] == old(buckets[..])
        invariant Filed() && EventList(queue) && SameLayout(newSize, newWidth, buckets, old(qSize))
        invariant used == old(used) && lastPrio == old(lastPrio) && lastBucket == Hash(lastPrio, newWidth, newSize)
        invariant bucketTop == (lastPrio / newWidth + 1) * newWidth
        invariant forall e :: e in queue <==> e in q && Hash(e.key.ts, w, oldNBuckets) < i
      {
        assert oldBuckets[i] == oldBuckets[..][i];
        Refile(oldBuckets[i], q, w, oldNBuckets, i);
      }
      SameMembers(queue, q);
    }

    /** Resizes unless the sampled width is zero, by which Init would divide. */
    method Resize(newSize: nat) returns (ok: bool)
      requires Counted() && 0 < newSize <= MAX_BUCKETS
      modifies this, buckets
      ensures ok <==> SampledWidth(old(queue)) != 0
      ensures ok ==> Counted() && queue == old(queue) && nBuckets == newSize && lastPrio == old(lastPrio) && used == old(used)
      ensures ok ==> width == SampledWidth(queue)
      ensures buckets == old(buckets) || fresh(buckets)
    {
      var newWidth := CalculateNewWidth();
      if newWidth == 0 {
        return false;
      }
      DoResize(newSize, newWidth);
      ok := true;
    }

    method ResizeUp() returns (ok: bool)
      requires Counted() && YearLength(nBuckets) && nBuckets / 2 <= qSize && used
      requires qSize <= nBuckets * 2 + 1 || nBuckets == MAX_BUCKETS
      modifies this, buckets
      ensures ok <==> Overfull(|old(queue)|, old(nBuckets)) ==> SampledWidth(old(queue)) != 0
      ensures ok ==> Valid() && used && queue == old(queue) && lastPrio == old(lastPrio)
      ensures ok ==> nBuckets == DaysAfterInsert(|queue|, old(nBuckets)) && nBuckets / 2 <= qSize
      ensures ok ==> if |queue| > 2 * old(nBuckets) && old(nBuckets) < 0x8000
        then nBuckets == 2 * old(nBuckets) && width == SampledWidth(queue) else nBuckets == old(nBuckets) && width == old(width)
      ensures buckets == old(buckets) || fresh(buckets)
    {
      ok := true;
      if qSize > nBuckets * 2 && nBuckets < MAX_BUCKETS {
        ok := Resize(nBuckets * 2);
      }
    }

    method ResizeDown() returns (ok: bool)
      requires Counted() && YearLength(nBuckets) && nBuckets / 2 <= qSize + 1 && used
      requires qSize <= nBuckets * 2 || nBuckets == MAX_BUCKETS
      modifies this, buckets
      ensures ok <==> Underfull(|old(queue)|, old(nBuckets)) ==> SampledWidth(old(queue)) != 0
      ensures ok ==> Valid() && used && queue == old(queue) && lastPrio == old(lastPrio)
      ensures ok ==> nBuckets == DaysAfterRemove(|queue|, old(nBuckets)) && nBuckets / 2 <= qSize
      ensures ok ==> if 2 * (|queue| + 1) <= old(nBuckets)
        then nBuckets == old(nBuckets) / 2 && width == SampledWidth(queue) else nBuckets == old(nBuckets) && width == old(width)
      ensures buckets == old(buckets) || fresh(buckets)
    {
      ok := true;
      if qSize < nBuckets / 2 {
        ok := Resize(nBuckets / 2);
      }
    }

    // ---------- the scheduler interface ----------

    predicate IsEmpty()
      requires Valid()
      reads this, buckets
      ensures IsEmpty() <==> queue == []
    {
      qSize == 0
    }

    /**
     Inserts one event that does not lie before the last one removed.  The run goes on exactly when no
     resize is due or the sampled width for it is not zero; a zero width ends it in a division by zero.
     */
    method Insert(ev: Event) returns (ok: bool)
      requires Valid() && FreshUid(queue, ev) && lastPrio <= ev.key.ts <= MAX_TIME && |queue| + 1 < B32
      modifies this, buckets
      ensures var q := Inserted(old(queue), ev);
        && (ok <==> (Overfull(|q|, old(nBuckets)) ==> SampledWidth(q) != 0))
        && (ok ==> Valid() && queue == q && lastPrio == old(lastPrio))
        && (ok ==> used && nBuckets == DaysAfterInsert(|q|, old(nBuckets)) && nBuckets / 2 <= qSize)
      ensures ok ==> if |queue| > 2 * old(nBuckets) && old(nBuckets) < 0x8000
        then nBuckets == 2 * old(nBuckets) && width == SampledWidth(queue) else nBuckets == old(nBuckets) && width == old(width)
      ensures buckets == old(buckets) || fresh(buckets)
    {
      InsertedMembers(queue, ev);
      DoInsert(ev);
      qSize := qSize + 1;
      used := true;
      ok := ResizeUp();
    }

    /** Removes the first event; the same condition says whether the run goes on. */
    method RemoveNext() returns (next: Event, ok: bool)
      requires Valid() && !IsEmpty()
      modifies this, buckets
      ensures next == old(queue)[0]
      ensures var q := old(queue)[1..];
        && (ok <==> (Underfull(|q|, old(nBuckets)) ==> SampledWidth(q) != 0))
        && (ok ==> Valid() && queue == q && lastPrio == next.key.ts)
        && (ok ==> used && nBuckets == DaysAfterRemove(|q|, old(nBuckets)) && nBuckets / 2 <= qSize)
      ensures ok ==> if 2 * (|queue| + 1) <= old(nBuckets)
        then nBuckets == old(nBuckets) / 2 && width == SampledWidth(queue) else nBuckets == old(nBuckets) && width == old(width)
      ensures buckets == old(buckets) || fresh(buckets)
    {
      next := DoRemoveNext();
      qSize := qSize - 1;
      ok := ResizeDown();
    }

    /** Removes the named event and leaves the scan where it is. */
    method Remove(ev: Event) returns (ok: bool)
      requires Valid() && ev in queue
      modifies this, buckets
      ensures var q := Without(old(queue), ev.key.uid);
        && (ok <==> (Underfull(|q|, old(nBuckets)) ==> SampledWidth(q) != 0))
        && (ok ==> Valid() && queue == q && lastPrio == old(lastPrio))
        && (ok ==> used && nBuckets == DaysAfterRemove(|q|, old(nBuckets)) && nBuckets / 2 <= qSize)
      ensures ok ==> if 2 * (|queue| + 1) <= old(nBuckets)
        then nBuckets == old(nBuckets) / 2 && width == SampledWidth(queue) else nBuckets == old(nBuckets) && width == old(width)
      ensures buckets == old(buckets) || fresh(buckets)
    {
      DoRemove(ev);
      qSize := qSize - 1;
      ok := ResizeDown();
    }

    /** Takes one event out of its bucket. */
    method TakeOut(ev: Event)
      requires Filed() && EventList(queue) && ev in queue
      modifies buckets
      ensures FiledIn(buckets[..], Without(queue, ev.key.uid), width, nBuckets)
    {
      var bucket := Hash(ev.key.ts, width, nBuckets);
      RemoveFiled(buckets[..], queue, width, nBuckets, ev);
      var list := buckets[bucket];
      var i := FindUid(list, ev);
      WithoutIs(list, ev.key.uid, i);
      SetBucket(bucket, list[..i] + list[i + 1..]);
    }

    method DoRemove(ev: Event)
      requires Sound() && ev in queue
      modifies this`queue, buckets
      ensures Sound() && queue == Without(old(queue), ev.key.uid) && |queue| == |old(queue)| - 1
    {
      TakeOut(ev);
      WithoutIsEventList(queue, ev);
      WithoutMembers(queue, ev.key.uid);
      WindowShrinks(queue, Without(queue, ev.key.uid), width, nBuckets, lastPrio, lastBucket, bucketTop);
      queue := Without(queue, ev.key.uid);
    }

    static method FindUid(list: seq<Event>, ev: Event) returns (i: nat)
      requires DistinctUids(list) && ev in list
      ensures i < |list| && list[i] == ev
    {
      i := 0;
      while list[i].key.uid != ev.key.uid
        invariant i < |list| && ev in list[i..]
        decreases |list| - i
      {
        i := i + 1;
      }
    }
  }

  /** The first event is the front of its own bucket, and taking it off there takes it off the list. */
  lemma PopFiled(bs: seq<seq<Event>>, q: seq<Event>, w: nat, n: nat)
    requires FiledIn(bs, q, w, n) && q != []
    ensures var h := Hash(q[0].key.ts, w, n);
      bs[h] != [] && bs[h][0] == q[0] && FiledIn(bs[h := bs[h][1..]], q[1..], w, n)
  {
    var h := Hash(q[0].key.ts, w, n);
    assert bs[h] == [q[0]] + InBucket(q[1..], w, n, h);
  }

  lemma PopWindow(q: seq<Event>, w: nat, n: nat)
    requires w > 0 && n > 0 && w < B32 && EventList(q) && q != [] && forall i :: 0 <= i < |q| ==> q[i].key.ts <= MAX_TIME
    ensures var ts := q[0].key.ts;
      Window(q[1..], w, n, ts, Hash(ts, w, n), (ts / w + 1) * w) && (ts / w + 1) * w < B64
  {
    TopAdvances(q[0].key.ts, w, 0);
    Distrib(q[0].key.ts / w, 1, w);
    DivMod(q[0].key.ts, w);
  }

  lemma WindowShrinks(q: seq<Event>, r: seq<Event>, w: nat, n: nat, prio: nat, bucket: nat, top: nat)
    requires Window(q, w, n, prio, bucket, top) && forall e :: e in r ==> e in q
    ensures Window(r, w, n, prio, bucket, top)
  {
    forall i | 0 <= i < |r| ensures prio <= r[i].key.ts <= MAX_TIME {
      assert r[i] in q;
    }
  }

  /** Filing an event in its bucket inserts it into the list. */
  lemma InsertFiled(bs: seq<seq<Event>>, q: seq<Event>, w: nat, n: nat, ev: Event)
    requires FiledIn(bs, q, w, n) && EventList(q)
    ensures var h := Hash(ev.key.ts, w, n);
      FiledIn(bs[h := Inserted(bs[h], ev)], Inserted(q, ev), w, n)
  {
    forall b | 0 <= b < n { InBucketInserted(q, w, n, b, ev); }
  }

  /** Taking an event out of its bucket takes it off the list. */
  lemma RemoveFiled(bs: seq<seq<Event>>, q: seq<Event>, w: nat, n: nat, ev: Event)
    requires FiledIn(bs, q, w, n) && EventList(q) && ev in q
    ensures var h := Hash(ev.key.ts, w, n);
      && EventList(bs[h]) && ev in bs[h]
      && FiledIn(bs[h := Without(bs[h], ev.key.uid)], Without(q, ev.key.uid), w, n)
  {
    var h := Hash(ev.key.ts, w, n);
    InBucketIsEventList(q, w, n, h);
    InBucketMembers(q, w, n, h, ev);
    forall b | 0 <= b < n { InBucketWithout(q, w, n, b, ev); }
  }

  /**
   What one step of the scan sees: the front of the bucket is the first event whenever that event hashes
   there; a front below the top of the day is the first event; and otherwise the day has been passed.
   */
  lemma ScanStep(q: seq<Event>, w: nat, n: nat, d0: nat, k: nat, last: nat)
    requires w > 0 && 0 <= k < n && EventList(q) && q != [] && d0 + k <= q[0].key.ts / w
    requires last == StepOf(d0, q[0].key.ts / w, n)
    ensures var b := InBucket(q, w, n, Step(d0 % n, k, n));
      && (k == last ==> b != [] && b[0] == q[0])
      && (b != [] ==> b[0] == q[0] || Less(q[0].key, b[0].key))
      && (b != [] && b[0] == q[0] ==> Hash(q[0].key.ts, w, n) == Step(d0 % n, k, n))
      && (b != [] && b[0].key.ts < (d0 + k + 1) * w ==> b[0] == q[0] && q[0].key.ts / w == d0 + k)
      && (b == [] || b[0].key.ts >= (d0 + k + 1) * w ==> d0 + k + 1 <= q[0].key.ts / w)
  {
    StepIsDay(d0, k, n);
    var i, m := Step(d0 % n, k, n), q[0];
    var b, d := InBucket(q, w, n, i), m.key.ts / w;
    UnderTop(m.key.ts, w, d0 + k);
    if d == d0 + k || k == last { assert Hash(m.key.ts, w, n) == i; }
    if b != [] {
      InBucketMembers(q, w, n, i, b[0]);
      FirstIsLeast(q, b[0]);
      UnderTop(b[0].key.ts, w, d0 + k);
      DivMono(m.key.ts, b[0].key.ts, w);
    }
  }

  /** An event not yet filed shares its unique id with none of those already filed. */
  lemma StillToFile(filed: seq<Event>, list: seq<Event>, q: seq<Event>, w: nat, n: nat, b: nat, j: nat)
    requires EventList(q) && w > 0 && n > 0 && list == InBucket(q, w, n, b) && EventList(list) && j < |list|
    requires forall e :: e in filed ==> e in list[..j] || (e in q && Hash(e.key.ts, w, n) < b)
    ensures FreshUid(filed, list[j])
  {
    InBucketMembers(q, w, n, b, list[j]);
    forall i | 0 <= i < |filed| ensures filed[i].key.uid != list[j].key.uid {
      var e := filed[i];
      if e !in list[..j] { assert e in q && e != list[j]; }
    }
  }

  // ---------- when a resize traps ----------

  /**
   Five events one 2^30 apart: their separation is 2^32, three times which has its low 32 bits zero.
   In a fresh calendar the fifth insertion resizes, and the run ends in a division by zero.
   */
  lemma EvenSpacingTraps(q: seq<Event>, d: nat)
    requires d == 0x4000_0000 && |q| == 5 && forall i :: 0 <= i < 5 ==> q[i].key.ts == i * d
    ensures Overfull(|q|, 2) && SampledWidth(q) == 0
  {
    assert Sorted(q) && Spaced(q, d);
    EvenWidth(q, d);
  }

  /** In a fresh calendar four such events go in and the fifth does not. */
  method FifthInsertionTraps(es: seq<Event>, d: nat) returns (ok: bool)
    requires d == 0x4000_0000 && |es| == 5 && DistinctUids(es) && forall i :: 0 <= i < 5 ==> es[i].key.ts == i * d
    ensures !ok
  {
    var calendar := new CalendarScheduler();
    for i := 0 to 4
      invariant calendar.Valid() && fresh(calendar) && fresh(calendar.buckets)
      invariant calendar.queue == es[..i] && calendar.nBuckets == 2 && calendar.lastPrio == 0
    {
      LastInserted(es, d, i);
      ok := calendar.Insert(es[i]);
      assert ok;
    }
    LastInserted(es, d, 4);
    EvenSpacingTraps(es[..5], d);
    ok := calendar.Insert(es[4]);
  }

  lemma LastInserted(es: seq<Event>, d: nat, i: nat)
    requires d > 0 && i < |es| && DistinctUids(es) && forall j :: 0 <= j < |es| ==> es[j].key.ts == j * d
    ensures FreshUid(es[..i], es[i]) && Inserted(es[..i], es[i]) == es[..i + 1]
  {
    forall j | 0 <= j < i ensures !Less(es[i].key, es[j].key) {
      MulStep(j, i, d);
    }
    RankIs(es[..i], es[i].key, i);
    assert es[..i][..i] + [es[i]] + es[..i][i..] == es[..i + 1];
  }

  /** A queue that spans less than 2^32 time units never traps. */
  lemma ShortSpanIsSafe(q: seq<Event>)
    requires EventList(q) && |q| >= 2 && (forall i :: 0 <= i < |q| ==> q[i].key.ts <= MAX_TIME)
    requires q[|q| - 1].key.ts - q[0].key.ts < B32
    ensures SampledWidth(q) != 0
  {
    var s := q[..SampleCount(|q|)];
    SeparationBounds(s, Separation(s, B64 - 1) / (|s| - 1) * 2);
    if |s| < |q| { assert Less(q[|s| - 1].key, q[|q| - 1].key); }
    var near := NearSeparation(q);
    WidthIsZeroIff(q);
    if near > 0 { ModIs(near, B32, 0, near); }
  }
}
