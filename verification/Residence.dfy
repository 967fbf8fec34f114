/**
 The occupancy check of the experiments (observations.py): the samples of a run are swept in time order,
 and the run is accepted only if the summary agrees with what the sweep finds.  Times are exact reals.
 */
module Residence {
  // ---------- the sweep ----------

  /** A prefix is held from its arrival to its completion, both included. */
  datatype Interval = Interval(arrival: real, completion: real)

  datatype Change = Change(time: real, kind: int, delta: int)

  /** The order of tuples. */
  predicate Le(a: Change, b: Change)
  {
    a.time < b.time || (a.time == b.time && (a.kind < b.kind || (a.kind == b.kind && a.delta <= b.delta)))
  }

  ghost predicate InOrder(s: seq<Change>)
  {
    forall i, j :: 0 <= i < j < |s| ==> Le(s[i], s[j])
  }

  function Inserted(s: seq<Change>, c: Change): (r: seq<Change>)
    ensures |r| == |s| + 1
  {
    if s == [] || Le(c, s[0]) then [c] + s else [s[0]] + Inserted(s[1..], c)
  }

  function Sort(s: seq<Change>): (r: seq<Change>)
    ensures |r| == |s|
  {
    if s == [] then [] else Inserted(Sort(s[1..]), s[0])
  }

  lemma {:induction false} InsertedBag(s: seq<Change>, c: Change)
    ensures multiset(Inserted(s, c)) == multiset(s) + multiset{c}
  {
    if !(s == [] || Le(c, s[0])) {
      InsertedBag(s[1..], c);
      assert s == [s[0]] + s[1..];
    }
  }

  lemma {:induction false} InsertedInOrder(s: seq<Change>, c: Change)
    requires InOrder(s)
    ensures InOrder(Inserted(s, c))
  {
    if !(s == [] || Le(c, s[0])) {
      var t := Inserted(s[1..], c);
      InsertedInOrder(s[1..], c);
      InsertedBag(s[1..], c);
      forall j | 0 <= j < |t| ensures Le(s[0], t[j]) {
        assert t[j] in multiset(t);
        assert t[j] in multiset(s[1..]) || t[j] == c;
      }
    }
  }

  lemma {:induction false} SortInOrder(s: seq<Change>)
    ensures InOrder(Sort(s)) && multiset(Sort(s)) == multiset(s)
  {
    if s != [] {
      SortInOrder(s[1..]);
      InsertedInOrder(Sort(s[1..]), s[0]);
      InsertedBag(Sort(s[1..]), s[0]);
      assert s == [s[0]] + s[1..];
    }
  }

  /** The occupancy after some changes. */
  function Sum(s: seq<Change>): (n: int)
  {
    if s == [] then 0 else Sum(s[..|s| - 1]) + s[|s| - 1].delta
  }

  /** Every interval contributes its arrival and, at the same instant only after all arrivals, its completion. */
  function Changes(held: seq<Interval>): (s: seq<Change>)
  {
    if held == [] then []
    else
      var last := held[|held| - 1];
      Changes(held[..|held| - 1]) + [Change(last.arrival, 0, 1), Change(last.completion, 1, -1)]
  }

  /** How many prefixes are held at an instant. */
  function HeldAt(held: seq<Interval>, t: real): (n: nat)
  {
    if held == [] then 0
    else
      var last := held[|held| - 1];
      HeldAt(held[..|held| - 1], t) + if last.arrival <= t <= last.completion then 1 else 0
  }

  ghost predicate IsPeak(held: seq<Interval>, n: int)
  {
    (forall t :: HeldAt(held, t) <= n) && (exists t :: HeldAt(held, t) == n)
  }

  predicate Proper(held: seq<Interval>)
  {
    forall i :: 0 <= i < |held| ==> held[i].arrival <= held[i].completion
  }

  /** The changes made once everything at the instant but its completions has happened. */
  predicate Made(c: Change, t: real)
  {
    c.time < t || (c.time == t && c.kind == 0)
  }

  function SumMade(s: seq<Change>, t: real): (n: int)
  {
    if s == [] then 0 else SumMade(s[..|s| - 1], t) + if Made(s[|s| - 1], t) then s[|s| - 1].delta else 0
  }

  lemma {:induction false} SumMadeConcat(a: seq<Change>, b: seq<Change>, t: real)
    ensures SumMade(a + b, t) == SumMade(a, t) + SumMade(b, t)
  {
    if b == [] {
      assert a + b == a;
    } else {
      assert (a + b)[..|a + b| - 1] == a + b[..|b| - 1];
      SumMadeConcat(a, b[..|b| - 1], t);
    }
  }

  lemma SumMadeOne(c: Change, t: real)
    ensures SumMade([c], t) == if Made(c, t) then c.delta else 0
  {
    assert [c][..0] == [];
  }

  /** One change less. */
  lemma SumMadeWithout(x: seq<Change>, c: Change, y: seq<Change>, t: real)
    ensures SumMade(x + [c] + y, t) == SumMade([c], t) + SumMade(x + y, t)
  {
    SumMadeConcat(x + [c], y, t);
    SumMadeConcat(x, [c], t);
    SumMadeConcat(x, y, t);
  }

  /** The order of the changes does not matter. */
  lemma {:induction false} SumMadePermutation(a: seq<Change>, b: seq<Change>, t: real)
    requires multiset(a) == multiset(b)
    ensures SumMade(a, t) == SumMade(b, t)
    decreases |a|
  {
    if a == [] {
      assert |b| == |multiset(b)| == 0;
    } else {
      hide SumMade;
      var x, y := TakeOut(a, b);
      SumMadePermutation(a[1..], x + y, t);
      assert a == [a[0]] + a[1..];
      SumMadeConcat([a[0]], a[1..], t);
      SumMadeWithout(x, a[0], y, t);
    }
  }

  /** The first change of one list among those of the other. */
  lemma TakeOut(a: seq<Change>, b: seq<Change>) returns (x: seq<Change>, y: seq<Change>)
    requires multiset(a) == multiset(b) && a != []
    ensures b == x + [a[0]] + y && multiset(a[1..]) == multiset(x + y)
  {
    var c := a[0];
    assert multiset(a) == multiset{c} + multiset(a[1..]) by {
      assert a == [c] + a[1..];
    }
    assert c in multiset(b);
    var i :| 0 <= i < |b| && b[i] == c;
    x, y := b[..i], b[i + 1..];
    assert multiset(b) == multiset{c} + multiset(x + y) by {
      assert b == x + [c] + y;
    }
    BagCancel(multiset(a[1..]), multiset(x + y), c);
  }

  lemma BagCancel(p: multiset<Change>, q: multiset<Change>, c: Change)
    requires multiset{c} + p == multiset{c} + q
    ensures p == q
  {
    assert p == (multiset{c} + p) - multiset{c} && q == (multiset{c} + q) - multiset{c};
  }

  /** An interval is held at an instant when it has arrived by then and not completed before. */
  lemma {:induction false} HeldIsMade(held: seq<Interval>, t: real)
    requires Proper(held)
    ensures HeldAt(held, t) == SumMade(Changes(held), t)
  {
    if held != [] {
      var last, before := held[|held| - 1], held[..|held| - 1];
      var a, b := Change(last.arrival, 0, 1), Change(last.completion, 1, -1);
      HeldIsMade(before, t);
      SumMadeConcat(Changes(before), [a, b], t);
      assert [a, b] == [a] + [b];
      SumMadeConcat([a], [b], t);
      SumMadeOne(a, t);
      SumMadeOne(b, t);
    }
  }

  /** In time order the changes made by an instant come first. */
  lemma {:induction false} MadeIsPrefix(s: seq<Change>, t: real) returns (k: nat)
    requires InOrder(s) && forall i :: 0 <= i < |s| ==> s[i].kind == 0 || s[i].kind == 1
    ensures k <= |s| && SumMade(s, t) == Sum(s[..k])
    ensures forall i :: 0 <= i < k ==> Made(s[i], t)
    ensures forall i :: k <= i < |s| ==> !Made(s[i], t)
  {
    if s == [] {
      k := 0;
    } else {
      var init := s[..|s| - 1];
      k := MadeIsPrefix(init, t);
      assert init[..k] == s[..k];
      if Made(s[|s| - 1], t) {
        forall i | 0 <= i < |init| ensures Made(init[i], t) {
          assert Le(s[i], s[|s| - 1]);
        }
        assert init[..k] == init && s[..k + 1] == s;
        k := k + 1;
      }
    }
  }

  /** After every change the occupancy is the sum of all, in whatever order. */
  lemma SumPermutation(a: seq<Change>, b: seq<Change>)
    requires multiset(a) == multiset(b)
    ensures Sum(a) == Sum(b)
  {
    var t := Latest(a);
    SumMadePermutation(a, b, t);
    forall i | 0 <= i < |b| ensures b[i].time < t {
      assert b[i] in multiset(b) && b[i] in multiset(a);
    }
    AllMade(a, t);
    AllMade(b, t);
  }

  function Latest(s: seq<Change>): (t: real)
    ensures forall i :: 0 <= i < |s| ==> s[i].time < t
  {
    if s == [] then 0.0
    else
      var t, last := Latest(s[..|s| - 1]), s[|s| - 1].time;
      if last < t then t else last + 1.0
  }

  lemma {:induction false} AllMade(s: seq<Change>, t: real)
    requires forall i :: 0 <= i < |s| ==> s[i].time < t
    ensures SumMade(s, t) == Sum(s)
  {
    if s != [] { AllMade(s[..|s| - 1], t); }
  }

  /** Arrivals in a row only raise the occupancy. */
  lemma {:induction false} ArrivalsRaise(s: seq<Change>, j: nat, k: nat)
    requires j <= k <= |s| && forall i :: j <= i < k ==> s[i].delta == 1
    ensures Sum(s[..j]) <= Sum(s[..k])
  {
    if j < k {
      assert s[..k][..k - 1] == s[..k - 1];
      ArrivalsRaise(s, j, k - 1);
    }
  }

  predicate Marked(s: seq<Change>)
  {
    forall i :: 0 <= i < |s| ==> (s[i].kind == 0 && s[i].delta == 1) || (s[i].kind == 1 && s[i].delta == -1)
  }

  lemma {:induction false} ChangesMarked(held: seq<Interval>)
    ensures Marked(Changes(held)) && Sum(Changes(held)) == 0
  {
    if held != [] {
      var last, before := held[|held| - 1], Changes(held[..|held| - 1]);
      var a, b := Change(last.arrival, 0, 1), Change(last.completion, 1, -1);
      ChangesMarked(held[..|held| - 1]);
      var s := before + [a, b];
      assert s[..|s| - 1] == before + [a] && (before + [a])[..|before|] == before;
    }
  }

  lemma MarkedPermutation(a: seq<Change>, b: seq<Change>)
    requires multiset(a) == multiset(b) && Marked(a)
    ensures Marked(b)
  {
    forall i | 0 <= i < |b|
      ensures (b[i].kind == 0 && b[i].delta == 1) || (b[i].kind == 1 && b[i].delta == -1)
    {
      assert b[i] in multiset(b) && b[i] in multiset(a);
    }
  }

  /** The occupancy at an instant is one of the occupancies of the sweep. */
  lemma HeldIsSwept(held: seq<Interval>, s: seq<Change>, t: real) returns (k: nat)
    requires Proper(held) && InOrder(s) && Marked(s) && multiset(s) == multiset(Changes(held))
    ensures k <= |s| && HeldAt(held, t) == Sum(s[..k])
    ensures forall i :: 0 <= i < k ==> Made(s[i], t)
    ensures forall i :: k <= i < |s| ==> !Made(s[i], t)
  {
    HeldIsMade(held, t);
    SumMadePermutation(Changes(held), s, t);
    k := MadeIsPrefix(s, t);
  }

  /** The occupancy after an arrival is at most that of its instant: only arrivals of the same instant follow. */
  lemma SweptIsHeld(held: seq<Interval>, s: seq<Change>, j: nat)
    requires Proper(held) && InOrder(s) && Marked(s) && multiset(s) == multiset(Changes(held))
    requires j < |s| && s[j].delta == 1
    ensures Sum(s[..j + 1]) <= HeldAt(held, s[j].time)
  {
    var k := HeldIsSwept(held, s, s[j].time);
    assert Made(s[j], s[j].time);
    forall i | j + 1 <= i < k ensures s[i].delta == 1 {
      assert Le(s[j], s[i]) && Made(s[i], s[j].time);
    }
    ArrivalsRaise(s, j + 1, k);
  }

  /** The largest occupancy of the sweep. */
  ghost predicate IsHighest(s: seq<Change>, peak: int)
  {
    (forall j :: 0 <= j <= |s| ==> Sum(s[..j]) <= peak) && (exists j :: 0 <= j <= |s| && Sum(s[..j]) == peak)
  }

  /** The first place where the sweep is highest follows an arrival, unless it is the start. */
  lemma {:induction false} FirstHighest(s: seq<Change>, peak: int, j: nat)
    requires Marked(s) && j <= |s| && Sum(s[..j]) == peak && forall i :: 0 <= i <= |s| ==> Sum(s[..i]) <= peak
    ensures peak == 0 || exists i :: 0 <= i < |s| && s[i].delta == 1 && Sum(s[..i + 1]) == peak
  {
    if j == 0 {
      assert s[..0] == [];
    } else {
      assert s[..j][..j - 1] == s[..j - 1];
      assert Sum(s[..j - 1]) <= peak;
      assert s[j - 1].delta == 1 && Sum(s[..j - 1 + 1]) == peak;
    }
  }

  /** The sweep finds the peak: no instant has more prefixes held, and some instant has as many. */
  lemma HighestIsPeak(held: seq<Interval>, s: seq<Change>, peak: int)
    requires Proper(held) && InOrder(s) && multiset(s) == multiset(Changes(held)) && IsHighest(s, peak)
    ensures IsPeak(held, peak)
  {
    ChangesMarked(held);
    MarkedPermutation(Changes(held), s);
    forall t ensures HeldAt(held, t) <= peak {
      var k := HeldIsSwept(held, s, t);
    }
    var j :| 0 <= j <= |s| && Sum(s[..j]) == peak;
    FirstHighest(s, peak, j);
    if peak == 0 {
      assert HeldAt(held, 0.0) == 0;
    } else {
      var i :| 0 <= i < |s| && s[i].delta == 1 && Sum(s[..i + 1]) == peak;
      SweptIsHeld(held, s, i);
      assert HeldAt(held, s[i].time) == peak;
    }
  }

  /** The loop over the sorted changes. */
  method Sweep(s: seq<Change>) returns (active: int, peak: int)
    ensures active == Sum(s) && IsHighest(s, peak)
  {
    active, peak := 0, 0;
    assert s[..0] == [] && Sum(s[..0]) == 0;
    for k := 0 to |s|
      invariant active == Sum(s[..k])
      invariant forall j :: 0 <= j <= k ==> Sum(s[..j]) <= peak
      invariant exists j :: 0 <= j <= k && Sum(s[..j]) == peak
    {
      assert s[..k + 1][..k] == s[..k];
      active := active + s[k].delta;
      assert Sum(s[..k + 1]) == active;
      peak := if active > peak then active else peak;
    }
    assert s[..|s|] == s;
  }

  // ---------- the check ----------

  datatype Option<T> = None | Some(value: T)

  /** A sample as read from the file; a time that is no finite number is missing. */
  datatype Row = Row(prefixId: string, seed: string, arrival: Option<real>, completion: Option<real>, residence: Option<real>)

  datatype Summary = Summary(seed: string, arrivalCount: int, highWater: int, occupancyArea: real, horizon: real,
                             timeWeightedMean: real, delay: real)

  datatype Error = NotFinite | Identity | Duration | Mismatch | DivisionByZero

  datatype Verdict = Accepted(samples: nat, deterministicDelay: bool) | Rejected(error: Error)

  function Magnitude(x: real): (r: real)
    ensures r >= 0.0
  {
    if x < 0.0 then -x else x
  }

  /** Closeness as the math library defines it. */
  predicate IsClose(a: real, b: real, relTol: real, absTol: real)
  {
    var largest := if Magnitude(a) < Magnitude(b) then Magnitude(b) else Magnitude(a);
    var tolerance := if relTol * largest < absTol then absTol else relTol * largest;
    Magnitude(a - b) <= tolerance
  }

  const E6: real := 0.000001
  const E7: real := 0.0000001
  const E8: real := 0.00000001

  /** What is wrong with a sample, given the prefixes already seen. */
  function RowError(row: Row, seen: set<string>, seed: string): (e: Option<Error>)
  {
    if row.arrival.None? || row.completion.None? || row.residence.None? then Some(NotFinite)
    else if row.prefixId in seen || row.seed != seed then Some(Identity)
    else if row.completion.value < row.arrival.value
        || !IsClose(row.completion.value - row.arrival.value, row.residence.value, E8, E8) then Some(Duration)
    else None
  }

  function Ids(rows: seq<Row>): (ids: set<string>)
  {
    set i | 0 <= i < |rows| :: rows[i].prefixId
  }

  predicate GoodRows(rows: seq<Row>, seed: string)
  {
    forall i :: 0 <= i < |rows| ==> RowError(rows[i], Ids(rows[..i]), seed) == None
  }

  function Value(x: Option<real>): (r: real)
  {
    if x.Some? then x.value else 0.0
  }

  function Held(rows: seq<Row>): (held: seq<Interval>)
    ensures |held| == |rows|
    ensures forall i :: 0 <= i < |rows| ==> held[i] == Interval(Value(rows[i].arrival), Value(rows[i].completion))
  {
    if rows == [] then []
    else
      var last := rows[|rows| - 1];
      Held(rows[..|rows| - 1]) + [Interval(Value(last.arrival), Value(last.completion))]
  }

  function Total(durations: seq<real>): (t: real)
  {
    if durations == [] then 0.0 else Total(durations[..|durations| - 1]) + durations[|durations| - 1]
  }

  function Durations(rows: seq<Row>): (d: seq<real>)
    ensures |d| == |rows| && forall i :: 0 <= i < |rows| ==> d[i] == Value(rows[i].residence)
  {
    if rows == [] then [] else Durations(rows[..|rows| - 1]) + [Value(rows[|rows| - 1].residence)]
  }

  /** What a summary has to say about good samples. */
  ghost predicate Agrees(rows: seq<Row>, summary: Summary)
  {
    var area := Total(Durations(rows));
    && |rows| == summary.arrivalCount
    && IsPeak(Held(rows), summary.highWater)
    && IsClose(area, summary.occupancyArea, E8, E6)
    && summary.horizon != 0.0 && IsClose(area / summary.horizon, summary.timeWeightedMean, E8, E7)
  }

  lemma IdsSnoc(rows: seq<Row>, i: nat)
    requires i < |rows|
    ensures Ids(rows[..i + 1]) == Ids(rows[..i]) + {rows[i].prefixId}
  {
    var s, t := rows[..i], rows[..i + 1];
    assert t[i].prefixId in Ids(t);
    forall id | id in Ids(s) ensures id in Ids(t) {
      var j :| 0 <= j < |s| && s[j].prefixId == id;
      assert t[j].prefixId == id;
    }
    forall id | id in Ids(t) ensures id in Ids(s) + {rows[i].prefixId} {
      var j :| 0 <= j < |t| && t[j].prefixId == id;
      if j < i { assert s[j].prefixId == id; }
    }
  }

  lemma OnePeak(held: seq<Interval>, m: int, n: int)
    requires IsPeak(held, m) && IsPeak(held, n)
    ensures m == n
  {
    var t :| HeldAt(held, t) == m;
    var u :| HeldAt(held, u) == n;
  }

  lemma GoodPrefix(rows: seq<Row>, seed: string, i: nat)
    requires i <= |rows|
    requires forall j :: 0 <= j < i ==> RowError(rows[j], Ids(rows[..j]), seed) == None
    ensures GoodRows(rows[..i], seed)
  {
    forall j | 0 <= j < i ensures RowError(rows[..i][j], Ids(rows[..i][..j]), seed) == None {
      assert rows[..i][..j] == rows[..j];
    }
  }

  /** A bad row makes a bad file. */
  lemma BadRow(rows: seq<Row>, seed: string, i: nat)
    requires i < |rows| && RowError(rows[i], Ids(rows[..i]), seed) != None
    ensures !GoodRows(rows, seed)
  {
  }

  lemma GoodIsProper(rows: seq<Row>, seed: string)
    requires GoodRows(rows, seed)
    ensures Proper(Held(rows))
  {
    forall i | 0 <= i < |rows| ensures Held(rows)[i].arrival <= Held(rows)[i].completion {
      assert RowError(rows[i], Ids(rows[..i]), seed) == None;
    }
  }

  /** Reads the samples up to the first one that is wrong. */
  method ReadRows(rows: seq<Row>, seed: string) returns (error: Option<Error>, samples: nat, events: seq<Change>, durations: seq<real>)
    ensures error == None <==> GoodRows(rows, seed)
    ensures error == None ==> samples == |rows| && events == Changes(Held(rows)) && durations == Durations(rows)
    ensures error.Some? ==> exists i :: 0 <= i < |rows| && GoodRows(rows[..i], seed) && RowError(rows[i], Ids(rows[..i]), seed) == error
  {
    hide Changes, Held, Durations, RowError;
    NoSamples(rows);
    var ids: set<string> := {};
    samples, events, durations := 0, [], [];
    for i := 0 to |rows|
      invariant ids == Ids(rows[..i]) && samples == i
      invariant events == Changes(Held(rows[..i])) && durations == Durations(rows[..i])
      invariant forall j :: 0 <= j < i ==> RowError(rows[j], Ids(rows[..j]), seed) == None
    {
      var row := rows[i];
      error := RowError(row, ids, seed);
      if error.Some? {
        GoodPrefix(rows, seed, i);
        BadRow(rows, seed, i);
        return;
      }
      RowIsFinite(row, ids, seed);
      IdsSnoc(rows, i);
      ids := ids + {row.prefixId};
      samples := samples + 1;
      durations := durations + [row.residence.value];
      OneMoreSample(rows[..i], row);
      assert rows[..i + 1] == rows[..i] + [row];
      events := events + [Change(row.arrival.value, 0, 1), Change(row.completion.value, 1, -1)];
    }
    assert rows[..|rows|] == rows;
    error := None;
  }

  lemma NoSamples(rows: seq<Row>)
    ensures Changes(Held(rows[..0])) == [] && Durations(rows[..0]) == []
  {
  }

  lemma RowIsFinite(row: Row, seen: set<string>, seed: string)
    requires RowError(row, seen, seed) == None
    ensures row.arrival == Some(Value(row.arrival)) && row.completion == Some(Value(row.completion))
    ensures row.residence == Some(Value(row.residence))
  {
  }

  lemma OneMoreSample(rows: seq<Row>, row: Row)
    ensures var a, b := Value(row.arrival), Value(row.completion);
      Changes(Held(rows + [row])) == Changes(Held(rows)) + [Change(a, 0, 1), Change(b, 1, -1)]
    ensures Durations(rows + [row]) == Durations(rows) + [Value(row.residence)]
  {
    var all := rows + [row];
    assert all[..|all| - 1] == rows;
    assert Held(all)[..|all| - 1] == Held(rows);
  }

  /** The sweep of the events of good samples ends at zero and its peak is the most prefixes held at once. */
  method Reconstruct(rows: seq<Row>, seed: string, events: seq<Change>) returns (active: int, peak: int)
    requires GoodRows(rows, seed) && events == Changes(Held(rows))
    ensures active == 0 && IsPeak(Held(rows), peak)
  {
    var sorted := Sort(events);
    active, peak := Sweep(sorted);
    GoodIsProper(rows, seed);
    SortInOrder(events);
    HighestIsPeak(Held(rows), sorted, peak);
    ChangesMarked(Held(rows));
    SumPermutation(sorted, events);
  }

  /** Accepts exactly the good samples that the summary agrees with. */
  method VerifyResidence(rows: seq<Row>, summary: Summary) returns (verdict: Verdict)
    ensures verdict.Accepted? <==> GoodRows(rows, summary.seed) && Agrees(rows, summary)
    ensures verdict.Accepted? ==> verdict.samples == |rows| && (verdict.deterministicDelay <==>
      forall i :: 0 <= i < |rows| ==> IsClose(Value(rows[i].residence), summary.delay, E8, E8))
    ensures !GoodRows(rows, summary.seed) ==>
      exists i :: 0 <= i < |rows| && GoodRows(rows[..i], summary.seed) && verdict.Rejected?
                  && RowError(rows[i], Ids(rows[..i]), summary.seed) == Some(verdict.error)
    ensures GoodRows(rows, summary.seed) && verdict.Rejected? ==>
      verdict.error == if summary.horizon == 0.0 then DivisionByZero else Mismatch
  {
    hide Ids, RowError, Held, Durations, Changes, IsPeak, IsClose;
    var error, samples, events, durations := ReadRows(rows, summary.seed);
    if error.Some? { return Rejected(error.value); }
    var active, peak := Reconstruct(rows, summary.seed, events);
    var area := TotalOf(durations);
    if summary.horizon == 0.0 { return Rejected(DivisionByZero); }
    if IsPeak(Held(rows), summary.highWater) { OnePeak(Held(rows), peak, summary.highWater); }
    if !(samples == summary.arrivalCount && active == 0 && peak == summary.highWater
         && IsClose(area, summary.occupancyArea, E8, E6)
         && IsClose(area / summary.horizon, summary.timeWeightedMean, E8, E7)) {
      return Rejected(Mismatch);
    }
    verdict := Accepted(samples, forall i :: 0 <= i < |durations| ==> IsClose(durations[i], summary.delay, E8, E8));
  }

  method TotalOf(durations: seq<real>) returns (area: real)
    ensures area == Total(durations)
  {
    area := 0.0;
    for i := 0 to |durations|
      invariant area == Total(durations[..i])
    {
      assert durations[..i + 1][..i] == durations[..i];
      area := area + durations[i];
    }
    assert durations[..|durations|] == durations;
  }

  // ---------- what an accepted run looks like ----------

  predicate Within(gap: real, tolerance: real)
  {
    -tolerance <= gap <= tolerance
  }

  /** Two numbers agree up to an absolute tolerance, or up to 10^-8 of the size of either. */
  predicate AgreeTo(a: real, b: real, absTol: real)
  {
    Within(a - b, absTol) || Within(a - b, 0.00000001 * Magnitude(a)) || Within(a - b, 0.00000001 * Magnitude(b))
  }

  lemma IsCloseIff(a: real, b: real, absTol: real)
    ensures IsClose(a, b, E8, absTol) <==> AgreeTo(a, b, absTol)
  {
  }

  /** The number of intervals that contain the instant, both ends included. */
  lemma {:induction false} HeldAtCounts(held: seq<Interval>, t: real)
    ensures HeldAt(held, t) == |set i | 0 <= i < |held| && held[i].arrival <= t <= held[i].completion|
  {
    if held != [] {
      var n, before := |held| - 1, held[..|held| - 1];
      HeldAtCounts(before, t);
      var some := set i | 0 <= i < |before| && before[i].arrival <= t <= before[i].completion;
      var all := set i | 0 <= i < |held| && held[i].arrival <= t <= held[i].completion;
      assert all == some + if held[n].arrival <= t <= held[n].completion then {n} else {};
    }
  }

  lemma {:induction false} TotalConcat(a: seq<real>, b: seq<real>)
    ensures Total(a + b) == Total(a) + Total(b)
  {
    if b == [] {
      assert a + b == a;
    } else {
      assert (a + b)[..|a + b| - 1] == a + b[..|b| - 1];
      TotalConcat(a, b[..|b| - 1]);
    }
  }

  /** The total of equal durations. */
  lemma {:induction false} TotalEqual(durations: seq<real>, d: real)
    requires forall i :: 0 <= i < |durations| ==> durations[i] == d
    ensures Total(durations) == d * (|durations| as real)
  {
    if durations != [] {
      TotalEqual(durations[..|durations| - 1], d);
      assert |durations| as real == (|durations| - 1) as real + 1.0;
    }
  }

  /** A sample whose three numbers are there, with the seed of the run and a duration that agrees with its times. */
  ghost predicate Sound(row: Row, seed: string)
  {
    && row.arrival.Some? && row.completion.Some? && row.residence.Some? && row.seed == seed
    && row.arrival.value <= row.completion.value
    && AgreeTo(row.completion.value - row.arrival.value, row.residence.value, 0.00000001)
  }

  /** The samples are good exactly when each is sound and no two have the same prefix. */
  lemma GoodRowsIff(rows: seq<Row>, seed: string)
    ensures GoodRows(rows, seed) <==>
      && (forall i :: 0 <= i < |rows| ==> Sound(rows[i], seed))
      && (forall i, j :: 0 <= i < j < |rows| ==> rows[i].prefixId != rows[j].prefixId)
  {
    hide Sound, RowError, Ids;
    forall i | 0 <= i < |rows|
      ensures RowError(rows[i], Ids(rows[..i]), seed) == None
        <==> Sound(rows[i], seed) && forall j :: 0 <= j < i ==> rows[j].prefixId != rows[i].prefixId
    {
      RowIsGoodIff(rows[i], Ids(rows[..i]), seed);
      SeenBefore(rows, i);
    }
  }

  lemma SeenBefore(rows: seq<Row>, i: nat)
    requires i < |rows|
    ensures rows[i].prefixId in Ids(rows[..i]) <==> exists j :: 0 <= j < i && rows[j].prefixId == rows[i].prefixId
  {
    var s := rows[..i];
    if j :| 0 <= j < i && rows[j].prefixId == rows[i].prefixId {
      assert s[j].prefixId in Ids(s);
    }
    if rows[i].prefixId in Ids(s) {
      var j :| 0 <= j < |s| && s[j].prefixId == rows[i].prefixId;
      assert rows[j].prefixId == rows[i].prefixId;
    }
  }

  lemma RowIsGoodIff(row: Row, seen: set<string>, seed: string)
    ensures RowError(row, seen, seed) == None <==> Sound(row, seed) && row.prefixId !in seen
    ensures RowError(row, seen, seed) == Some(NotFinite) <==> row.arrival.None? || row.completion.None? || row.residence.None?
    ensures RowError(row, seen, seed) == Some(Identity) <==>
      row.arrival.Some? && row.completion.Some? && row.residence.Some? && (row.prefixId in seen || row.seed != seed)
    ensures RowError(row, seen, seed) in {None, Some(NotFinite), Some(Identity), Some(Duration)}
  {
    hide IsClose, AgreeTo;
    if row.arrival.Some? && row.completion.Some? && row.residence.Some? {
      IsCloseIff(row.completion.value - row.arrival.value, row.residence.value, E8);
    }
  }

  /** The tolerances of the summary: a millionth for its area, a ten-millionth for its mean, or 10^-8 of their size. */
  lemma AgreesIff(rows: seq<Row>, summary: Summary)
    ensures Agrees(rows, summary) <==>
      && |rows| == summary.arrivalCount && IsPeak(Held(rows), summary.highWater) && summary.horizon != 0.0
      && var area := Total(Durations(rows));
         AgreeTo(area, summary.occupancyArea, 0.000001) && AgreeTo(area / summary.horizon, summary.timeWeightedMean, 0.0000001)
  {
    hide IsClose, AgreeTo, IsPeak, Held, Durations, Total;
    var area := Total(Durations(rows));
    IsCloseIff(area, summary.occupancyArea, E6);
    if summary.horizon != 0.0 { IsCloseIff(area / summary.horizon, summary.timeWeightedMean, E7); }
  }
}
