/**
 The calendar queue seen as a sorted list: which part of the list a bucket holds, where the scan
 for the next event finds it, and how a resize chooses the width of a day.
 */
module CalendarLists {
  import opened Words
  import opened Events

  /** The bucket of a time stamp when a day lasts w and the year has n days. */
  function Hash(ts: nat, w: nat, n: nat): (b: nat)
    requires w > 0 && n > 0
    ensures b < n
  {
    ts / w % n
  }

  /** The events of a list that belong in bucket b, in list order. */
  function InBucket(q: seq<Event>, w: nat, n: nat, b: nat): (r: seq<Event>)
    requires w > 0 && n > 0
  {
    if q == [] then []
    else if Hash(q[0].key.ts, w, n) == b then [q[0]] + InBucket(q[1..], w, n, b)
    else InBucket(q[1..], w, n, b)
  }

  lemma {:induction false} InBucketMembers(q: seq<Event>, w: nat, n: nat, b: nat, e: Event)
    requires w > 0 && n > 0
    ensures e in InBucket(q, w, n, b) <==> e in q && Hash(e.key.ts, w, n) == b
  {
    if q != [] {
      InBucketMembers(q[1..], w, n, b, e);
      assert e in q <==> e == q[0] || e in q[1..];
    }
  }

  lemma {:induction false} InBucketIsEventList(q: seq<Event>, w: nat, n: nat, b: nat)
    requires w > 0 && n > 0 && EventList(q)
    ensures EventList(InBucket(q, w, n, b))
  {
    if q != [] {
      var t := InBucket(q[1..], w, n, b);
      InBucketIsEventList(q[1..], w, n, b);
      forall i | 0 <= i < |t| ensures Less(q[0].key, t[i].key) && q[0].key.uid != t[i].key.uid {
        InBucketMembers(q[1..], w, n, b, t[i]);
        var j :| 0 <= j < |q[1..]| && q[1..][j] == t[i];
        assert q[j + 1] == t[i];
      }
    }
  }

  /** Inserting into the list is inserting into the event's own bucket and leaving the others alone. */
  lemma {:induction false} InBucketInserted(q: seq<Event>, w: nat, n: nat, b: nat, ev: Event)
    requires w > 0 && n > 0 && EventList(q)
    ensures InBucket(Inserted(q, ev), w, n, b)
         == if Hash(ev.key.ts, w, n) == b then Inserted(InBucket(q, w, n, b), ev) else InBucket(q, w, n, b)
  {
    if q == [] {
      assert Inserted(q, ev) == [ev];
    } else if Less(ev.key, q[0].key) {
      assert Inserted(q, ev) == [ev] + q;
      var t := InBucket(q, w, n, b);
      if t != [] {
        InBucketMembers(q, w, n, b, t[0]);
        FirstIsLeast(q, t[0]);
      }
      assert Inserted(t, ev) == [ev] + t;
    } else {
      InsertedCons(q, ev);
      InBucketInserted(q[1..], w, n, b, ev);
      if Hash(q[0].key.ts, w, n) == b { InsertedCons(InBucket(q, w, n, b), ev); }
    }
  }

  /** The same for removal. */
  lemma {:induction false} InBucketWithout(q: seq<Event>, w: nat, n: nat, b: nat, ev: Event)
    requires w > 0 && n > 0 && EventList(q) && ev in q
    ensures InBucket(Without(q, ev.key.uid), w, n, b)
         == if Hash(ev.key.ts, w, n) == b then Without(InBucket(q, w, n, b), ev.key.uid) else InBucket(q, w, n, b)
  {
    if q[0].key.uid == ev.key.uid {
      assert q[0] == ev;
    } else {
      InBucketWithout(q[1..], w, n, b, ev);
    }
  }

  // ---------- the scan ----------

  /** The bucket k steps after l in a year of n days. */
  function Step(l: nat, k: nat, n: nat): (i: nat)
    requires l < n && k <= n
    ensures i < n
    ensures i == l <==> k == 0 || k == n
  {
    if l + k < n then l + k else l + k - n
  }

  lemma StepIs(l: nat, k: nat, n: nat)
    requires l < n && k <= n
    ensures (l + k) % n == Step(l, k, n)
    ensures k < n ==> (Step(l, k, n) + 1) % n == Step(l, k + 1, n)
  {
    ModIs(l + k, n, if l + k < n then 0 else 1, Step(l, k, n));
    if k < n {
      var i := Step(l, k, n);
      ModIs(i + 1, n, if i + 1 < n then 0 else 1, if i + 1 < n then i + 1 else 0);
    }
  }

  /** Bucket k of the scan holds day d0 + k of the year that starts at d0. */
  lemma StepIsDay(d0: nat, k: nat, n: nat)
    requires n > 0 && k <= n
    ensures d0 % n < n && Step(d0 % n, k, n) == (d0 + k) % n
  {
    DivMod(d0, n);
    StepIs(d0 % n, k, n);
    ModEq(d0 + k, d0 % n + k, n, d0 / n);
  }

  /** The scan step at which the bucket of day d comes up. */
  function StepOf(d0: nat, d: nat, n: nat): (k: nat)
    requires n > 0 && d0 <= d
    ensures k < n && (d0 + k) % n == d % n
  {
    DivMod(d - d0, n);
    ModEq(d0 + (d - d0) % n, d, n, -((d - d0) / n));
    (d - d0) % n
  }

  /** A time stamp is under the top of day d exactly when its own day is at most d. */
  lemma UnderTop(ts: nat, w: nat, d: nat)
    requires w > 0
    ensures ts < (d + 1) * w <==> ts / w <= d
  {
    DivMod(ts, w);
    if ts / w <= d { MulMono(ts / w + 1, d + 1, w); Distrib(ts / w, 1, w); } else { MulMono(d + 1, ts / w, w); }
  }

  /** The top of the day advances by one width a step, and stays far from the 64-bit limit. */
  lemma TopAdvances(prio: nat, w: nat, k: nat)
    requires prio <= MAX_TIME && 0 < w < B32 && k <= 0x8000
    ensures (prio / w + k + 1) * w + w == (prio / w + (k + 1) + 1) * w < B64
  {
    DivMod(prio, w);
    Distrib(prio / w, k + 2, w);
    Distrib(prio / w + k + 1, 1, w);
    MulMono(k + 2, 0x8002, w);
  }

  // ---------- the width of a day ----------

  function SampleCount(qSize: nat): (n: nat)
    ensures qSize >= 2 ==> 2 <= n <= qSize
    ensures n <= 25
  {
    var n := if qSize <= 5 then qSize else 5 + qSize / 10;
    if n > 25 then 25 else n
  }

  /** The sum of the distances between neighbours that are at most cutoff apart. */
  function Separation(s: seq<Event>, cutoff: int): (sum: int)
  {
    if |s| < 2 then 0
    else
      var diff := s[|s| - 1].key.ts - s[|s| - 2].key.ts;
      Separation(s[..|s| - 1], cutoff) + if diff <= cutoff then diff else 0
  }

  lemma {:induction false} SeparationBounds(s: seq<Event>, cutoff: int)
    requires Sorted(s)
    ensures 0 <= Separation(s, cutoff)
    ensures s != [] ==> Separation(s, cutoff) <= s[|s| - 1].key.ts - s[0].key.ts
  {
    if |s| >= 2 {
      var t := s[..|s| - 1];
      SeparationBounds(t, cutoff);
      assert Less(s[|s| - 2].key, s[|s| - 1].key);
      assert t[|t| - 1] == s[|s| - 2] && t[0] == s[0];
    }
  }

  /** The sum the width is computed from: the separation of the samples without its outliers. */
  function NearSeparation(q: seq<Event>): (sum: int)
    requires |q| >= 2
  {
    var s := q[..SampleCount(|q|)];
    Separation(s, Separation(s, B64 - 1) / (|s| - 1) * 2)
  }

  /** Three times the near separation, at least one, cut first to 64 and then to 32 bits. */
  function SampledWidth(q: seq<Event>): (w: nat)
    ensures w < B32
  {
    if |q| < 2 then 1
    else
      var sum := NearSeparation(q) * 3 % B64;
      DivMod(if sum > 1 then sum else 1, B32);
      (if sum > 1 then sum else 1) % B32
  }

  /** The width is three times the near separation, at least one, cut to 32 bits. */
  lemma WidthIs(q: seq<Event>)
    requires Sorted(q) && |q| >= 2 && forall i :: 0 <= i < |q| ==> q[i].key.ts <= MAX_TIME
    ensures NearSeparation(q) >= 0
    ensures SampledWidth(q) == if NearSeparation(q) == 0 then 1 else 3 * NearSeparation(q) % B32
  {
    var s := q[..SampleCount(|q|)];
    SeparationBounds(s, Separation(s, B64 - 1) / (|s| - 1) * 2);
    CutIs(NearSeparation(q));
  }

  lemma CutIs(near: nat)
    requires near < B63
    ensures var sum := near * 3 % B64;
      (if sum > 1 then sum else 1) % B32 == if near == 0 then 1 else 3 * near % B32
  {
    var sum := near * 3 % B64;
    DivMod(near * 3, B64);
    ModEq(sum, 3 * near, B32, 0 - near * 3 / B64 * B32);
    ModIs(1, B32, 0, 1);
    if near == 0 { ModIs(0, B64, 0, 0); } else { ThirdOfWord(near); }
  }

  lemma ThirdOfWord(near: int)
    requires 0 < near < B63
    ensures near * 3 % B64 != 0
  {
    DivMod(near * 3, B64);
  }

  /**
   The sampled width is zero, so that dividing by it traps, exactly when the near separation is a
   positive multiple of 2^32.
   */
  lemma WidthIsZeroIff(q: seq<Event>)
    requires Sorted(q) && |q| >= 2 && (forall i :: 0 <= i < |q| ==> q[i].key.ts <= MAX_TIME)
    ensures SampledWidth(q) == 0 <==> NearSeparation(q) > 0 && NearSeparation(q) % B32 == 0
  {
    hide NearSeparation, SampledWidth;
    WidthIs(q);
    TimesThree(NearSeparation(q));
  }

  lemma TimesThree(near: int)
    ensures 3 * near % B32 == 0 <==> near % B32 == 0
  {
    var m := near % B32;
    DivMod(near, B32);
    ModEq(3 * near, 3 * m, B32, 3 * (near / B32));
    DivMod(3 * m, B32);
  }

  // ---------- what the width stands for ----------

  /** The list cut at any place: the gap there counts when it is at most the cutoff. */
  lemma {:induction false} SeparationSplit(s: seq<Event>, i: nat, cutoff: int)
    requires 0 < i < |s|
    ensures var gap := s[i].key.ts - s[i - 1].key.ts;
      Separation(s, cutoff) == Separation(s[..i], cutoff) + Separation(s[i..], cutoff) + if gap <= cutoff then gap else 0
    decreases |s|
  {
    var t, u := s[..|s| - 1], s[i..];
    if i == |s| - 1 {
      assert t == s[..i];
    } else {
      SeparationSplit(t, i, cutoff);
      assert t[..i] == s[..i] && t[i..] == u[..|u| - 1];
    }
  }

  lemma {:induction false} SeparationTelescopes(s: seq<Event>, cutoff: int)
    requires s != [] && forall i :: 0 < i < |s| ==> s[i].key.ts - s[i - 1].key.ts <= cutoff
    ensures Separation(s, cutoff) == s[|s| - 1].key.ts - s[0].key.ts
  {
    if |s| >= 2 {
      var t := s[..|s| - 1];
      assert forall i :: 0 < i < |t| ==> t[i].key.ts - t[i - 1].key.ts <= cutoff;
      SeparationTelescopes(t, cutoff);
    }
  }

  /** The samples: all events up to five, then five and a tenth of them, at most 25. */
  predicate SamplesOf(q: seq<Event>, s: seq<Event>)
  {
    s == if |q| <= 5 then q else if |q| < 200 then q[..5 + |q| / 10] else q[..25]
  }

  lemma SamplesAre(q: seq<Event>, s: seq<Event>)
    requires |q| >= 2 && SamplesOf(q, s)
    ensures s == q[..SampleCount(|q|)] && |s| >= 2
  {
  }

  lemma NearSeparationIs(q: seq<Event>, s: seq<Event>)
    requires Sorted(q) && |q| >= 2 && SamplesOf(q, s) && forall i :: 0 <= i < |q| ==> q[i].key.ts <= MAX_TIME
    ensures NearSeparation(q) == Separation(s, (s[|s| - 1].key.ts - s[0].key.ts) / (|s| - 1) * 2)
  {
    SamplesAre(q, s);
    SeparationTelescopes(s, B64 - 1);
  }

  /** A gap between neighbouring samples counts when it is at most twice the average gap, which is rounded down. */
  lemma GapCounts(q: seq<Event>, s: seq<Event>, i: nat)
    requires Sorted(q) && |q| >= 2 && SamplesOf(q, s) && forall j :: 0 <= j < |q| ==> q[j].key.ts <= MAX_TIME
    requires 0 < i < |s|
    ensures |s| >= 2
    ensures var average := (s[|s| - 1].key.ts - s[0].key.ts) / (|s| - 1);
      var gap := s[i].key.ts - s[i - 1].key.ts;
      NearSeparation(q) == Separation(s[..i], 2 * average) + Separation(s[i..], 2 * average) + if gap <= 2 * average then gap else 0
  {
    SamplesAre(q, s);
    NearSeparationIs(q, s);
    SeparationSplit(s, i, (s[|s| - 1].key.ts - s[0].key.ts) / (|s| - 1) * 2);
  }

  predicate Spaced(q: seq<Event>, d: nat)
  {
    forall i :: 0 < i < |q| ==> q[i].key.ts - q[i - 1].key.ts == d
  }

  lemma {:induction false} SpacedSpan(s: seq<Event>, d: nat)
    requires s != [] && Spaced(s, d)
    ensures s[|s| - 1].key.ts - s[0].key.ts == d * (|s| - 1)
  {
    if |s| >= 2 {
      var t := s[..|s| - 1];
      assert Spaced(t, d);
      SpacedSpan(t, d);
      assert d * (|s| - 1) == d * (|t| - 1) + d;
    }
  }

  lemma EvenNear(q: seq<Event>, s: seq<Event>, d: nat)
    requires Sorted(q) && |q| >= 2 && Spaced(q, d) && SamplesOf(q, s) && forall i :: 0 <= i < |q| ==> q[i].key.ts <= MAX_TIME
    ensures NearSeparation(q) == d * (|s| - 1)
  {
    SamplesAre(q, s);
    assert Spaced(s, d);
    NearSeparationIs(q, s);
    hide NearSeparation, SampleCount, Sorted, SamplesOf;
    SpacedSpan(s, d);
    ModIs(d * (|s| - 1), |s| - 1, d, 0);
    SeparationTelescopes(s, d * 2);
  }

  /** Evenly spaced events get three times the span of the samples. */
  lemma EvenWidth(q: seq<Event>, d: nat)
    requires Sorted(q) && |q| >= 2 && Spaced(q, d) && forall i :: 0 <= i < |q| ==> q[i].key.ts <= MAX_TIME
    ensures var gaps := if |q| <= 5 then |q| - 1 else if |q| < 200 then 4 + |q| / 10 else 24;
      && SampledWidth(q) == (if d == 0 then 1 else 3 * (d * gaps) % B32)
      && (0 < 3 * (d * gaps) < B32 ==> SampledWidth(q) == 3 * (d * gaps))
  {
    var s := if |q| <= 5 then q else if |q| < 200 then q[..5 + |q| / 10] else q[..25];
    hide Separation, NearSeparation, SampledWidth, SampleCount, Spaced, Sorted;
    EvenNear(q, s, d);
    WidthIs(q);
    EvenCut(d, |s| - 1);
  }

  lemma EvenCut(d: nat, gaps: nat)
    requires gaps > 0
    ensures d * gaps == 0 <==> d == 0
    ensures 0 < 3 * (d * gaps) < B32 ==> 3 * (d * gaps) % B32 == 3 * (d * gaps)
  {
    MulMono(1, gaps, d);
    if 0 < 3 * (d * gaps) < B32 { ModIs(3 * (d * gaps), B32, 0, 3 * (d * gaps)); }
  }

  predicate TimesAre(q: seq<Event>, ts: seq<nat>)
  {
    |q| == |ts| && forall i :: 0 <= i < |q| ==> q[i].key.ts == ts[i]
  }

  lemma Unrolled(q: seq<Event>, cutoff: int)
    requires |q| == 5
    ensures var a, b, c, d := q[1].key.ts - q[0].key.ts, q[2].key.ts - q[1].key.ts, q[3].key.ts - q[2].key.ts, q[4].key.ts - q[3].key.ts;
      Separation(q, cutoff) == (if a <= cutoff then a else 0) + (if b <= cutoff then b else 0)
                               + (if c <= cutoff then c else 0) + (if d <= cutoff then d else 0)
  {
    SeparationSplit(q, 1, cutoff);
    SeparationSplit(q[1..], 1, cutoff);
    SeparationSplit(q[1..][1..], 1, cutoff);
    SeparationSplit(q[1..][1..][1..], 1, cutoff);
  }

  /** Gaps of three, between the average of two and twice it, count; a gap of twenty, more than twice five, does not. */
  lemma NearAndFarGaps(q: seq<Event>)
    requires Sorted(q)
    ensures TimesAre(q, [0, 1, 2, 5, 8]) ==> SampledWidth(q) == 24
    ensures TimesAre(q, [0, 1, 2, 3, 23]) ==> SampledWidth(q) == 9
  {
    if TimesAre(q, [0, 1, 2, 5, 8]) || TimesAre(q, [0, 1, 2, 3, 23]) {
      NearSeparationIs(q, q);
      Unrolled(q, (q[4].key.ts - q[0].key.ts) / 4 * 2);
      WidthIs(q);
      ModIs(24, B32, 0, 24);
      ModIs(9, B32, 0, 9);
      hide Separation, NearSeparation, SampledWidth, Sorted;
    }
  }
}
