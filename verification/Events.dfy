/**
 Scheduler events and their order (scheduler.h), and the event list that every scheduler stands
 for: the events in strictly increasing key order.
 */
module Events {
  import opened Words

  // The largest time stamp a signed 64-bit simulation time can have.
  const MAX_TIME: int := B63 - 1

  datatype Key = Key(ts: u64, uid: u32, context: u32)

  /** An event: its implementation object, by identity, and its key. */
  datatype Event = Event(impl: nat, key: Key)

  /** Keys are ordered by time stamp and then by unique id; the context plays no part. */
  predicate Less(a: Key, b: Key)
  {
    a.ts < b.ts || (a.ts == b.ts && a.uid < b.uid)
  }

  ghost predicate Sorted(s: seq<Event>)
  {
    forall i, j :: 0 <= i < j < |s| ==> Less(s[i].key, s[j].key)
  }

  ghost predicate DistinctUids(s: seq<Event>)
  {
    forall i, j :: 0 <= i < j < |s| ==> s[i].key.uid != s[j].key.uid
  }

  /** An event list: sorted by key, every unique id at most once. */
  ghost predicate EventList(s: seq<Event>)
  {
    Sorted(s) && DistinctUids(s)
  }

  ghost predicate FreshUid(s: seq<Event>, ev: Event)
  {
    forall i :: 0 <= i < |s| ==> s[i].key.uid != ev.key.uid
  }

  /** How many events of a sorted list stay in front of a key. */
  function Rank(s: seq<Event>, k: Key): (r: nat)
    ensures r <= |s|
    ensures forall i :: 0 <= i < r ==> !Less(k, s[i].key)
    ensures r < |s| ==> Less(k, s[r].key)
  {
    if s == [] || Less(k, s[0].key) then 0 else 1 + Rank(s[1..], k)
  }

  /** The list with ev put in front of the first later event. */
  function Inserted(s: seq<Event>, ev: Event): (r: seq<Event>)
  {
    s[..Rank(s, ev.key)] + [ev] + s[Rank(s, ev.key)..]
  }

  /** The list without its event of the given unique id. */
  function Without(s: seq<Event>, uid: u32): (r: seq<Event>)
  {
    if s == [] then []
    else if s[0].key.uid == uid then s[1..]
    else [s[0]] + Without(s[1..], uid)
  }

  lemma RankIs(s: seq<Event>, k: Key, r: nat)
    requires r <= |s|
    requires forall i :: 0 <= i < r ==> !Less(k, s[i].key)
    requires r < |s| ==> Less(k, s[r].key)
    ensures Rank(s, k) == r
  {
  }

  lemma InsertedSorted(s: seq<Event>, ev: Event)
    requires Sorted(s) && FreshUid(s, ev)
    ensures Sorted(Inserted(s, ev))
  {
    var r, t := Rank(s, ev.key), Inserted(s, ev);
    forall i, j | 0 <= i < j < |t| ensures Less(t[i].key, t[j].key) {
      if j < r {
      } else if j == r {
        assert !Less(ev.key, s[i].key) && s[i].key.uid != ev.key.uid;
      } else if i < r {
        assert t[j] == s[j - 1];
      } else if i == r {
        assert t[j] == s[j - 1];
        if j - 1 > r { assert Less(s[r].key, s[j - 1].key); }
      } else {
        assert t[i] == s[i - 1] && t[j] == s[j - 1];
      }
    }
  }

  lemma InsertedDistinct(s: seq<Event>, ev: Event)
    requires DistinctUids(s) && FreshUid(s, ev)
    ensures DistinctUids(Inserted(s, ev))
  {
    var r, t := Rank(s, ev.key), Inserted(s, ev);
    forall i, j | 0 <= i < j < |t| ensures t[i].key.uid != t[j].key.uid {
      assert t[i] == if i < r then s[i] else if i == r then ev else s[i - 1];
      assert t[j] == if j < r then s[j] else if j == r then ev else s[j - 1];
    }
  }

  lemma InsertedIsEventList(s: seq<Event>, ev: Event)
    requires EventList(s) && FreshUid(s, ev)
    ensures EventList(Inserted(s, ev)) && multiset(Inserted(s, ev)) == multiset(s) + multiset{ev}
  {
    InsertedSorted(s, ev);
    InsertedDistinct(s, ev);
    InsertedBag(s, ev);
  }

  lemma InsertedBag(s: seq<Event>, ev: Event)
    ensures multiset(Inserted(s, ev)) == multiset(s) + multiset{ev}
  {
    var r := Rank(s, ev.key);
    assert s == s[..r] + s[r..];
  }

  lemma {:induction false} WithoutIs(s: seq<Event>, uid: u32, i: nat)
    requires DistinctUids(s) && i < |s| && s[i].key.uid == uid
    ensures Without(s, uid) == s[..i] + s[i + 1..]
  {
    if i == 0 {
    } else {
      WithoutIs(s[1..], uid, i - 1);
      assert s[..i] + s[i + 1..] == [s[0]] + (s[1..][..i - 1] + s[1..][i..]);
    }
  }

  lemma {:induction false} WithoutMembers(s: seq<Event>, uid: u32)
    ensures forall e :: e in Without(s, uid) ==> e in s
  {
    if s != [] { WithoutMembers(s[1..], uid); }
  }

  lemma WithoutBag(s: seq<Event>, ev: Event)
    requires DistinctUids(s) && ev in s
    ensures multiset(Without(s, ev.key.uid)) == multiset(s) - multiset{ev}
  {
    var i :| 0 <= i < |s| && s[i] == ev;
    WithoutIs(s, ev.key.uid, i);
    assert s == s[..i] + [ev] + s[i + 1..];
  }

  lemma WithoutIsEventList(s: seq<Event>, ev: Event)
    requires EventList(s) && ev in s
    ensures EventList(Without(s, ev.key.uid)) && FreshUid(Without(s, ev.key.uid), ev)
    ensures |Without(s, ev.key.uid)| == |s| - 1
    ensures multiset(Without(s, ev.key.uid)) == multiset(s) - multiset{ev}
  {
    WithoutBag(s, ev);
    var i :| 0 <= i < |s| && s[i] == ev;
    WithoutIs(s, ev.key.uid, i);
    SubList(s, i);
  }

  lemma SubList(s: seq<Event>, i: nat)
    requires EventList(s) && i < |s|
    ensures EventList(s[..i] + s[i + 1..]) && FreshUid(s[..i] + s[i + 1..], s[i])
  {
    var t := s[..i] + s[i + 1..];
    assert forall k :: 0 <= k < |t| ==> t[k] == s[if k < i then k else k + 1];
  }

  /** The first event of a list comes before every other one. */
  lemma FirstIsLeast(s: seq<Event>, e: Event)
    requires Sorted(s) && e in s
    ensures e == s[0] || Less(s[0].key, e.key)
  {
  }

  lemma {:induction false} InsertedCons(s: seq<Event>, ev: Event)
    requires s != [] && !Less(ev.key, s[0].key)
    ensures Inserted(s, ev) == [s[0]] + Inserted(s[1..], ev)
  {
    var r := Rank(s[1..], ev.key);
    assert s[..r + 1] == [s[0]] + s[1..][..r];
    assert s[r + 1..] == s[1..][r..];
  }

  lemma InsertedMembers(s: seq<Event>, ev: Event)
    ensures forall e :: e in Inserted(s, ev) <==> e in s || e == ev
  {
    var r := Rank(s, ev.key);
    assert s == s[..r] + s[r..];
  }

  lemma TailIsEventList(s: seq<Event>)
    requires s != [] && EventList(s)
    ensures EventList(s[1..]) && FreshUid(s[1..], s[0])
  {
  }

  /** The list with the events from j up to n taken out. */
  function Around(s: seq<Event>, j: nat, n: nat): (r: seq<Event>)
    requires j <= n <= |s|
  {
    s[..j] + s[n..]
  }

  lemma AroundEnds(s: seq<Event>, n: nat)
    requires n <= |s|
    ensures Around(s, 0, n) == s[n..] && Around(s, n, n) == s
  {
  }

  /** Putting back the first of the events taken out. */
  lemma Reinserted(s: seq<Event>, j: nat, n: nat)
    requires EventList(s) && j < n <= |s|
    ensures FreshUid(Around(s, j, n), s[j])
    ensures Inserted(Around(s, j, n), s[j]) == Around(s, j + 1, n)
  {
    var t := Around(s, j, n);
    assert forall k :: 0 <= k < |t| ==> t[k] == s[if k < j then k else k - j + n];
    RankIs(t, s[j].key, j);
    assert t[..j] == s[..j] && t[j..] == s[n..];
    assert s[..j + 1] == s[..j] + [s[j]];
  }

  lemma FirstIn(s: seq<Event>)
    requires s != []
    ensures exists e :: e in s
  {
    assert s[0] in s;
  }

  /** Two event lists with the same members are the same list. */
  lemma {:induction false} SameMembers(s: seq<Event>, t: seq<Event>)
    requires Sorted(s) && Sorted(t)
    requires forall e :: e in s <==> e in t
    ensures s == t
  {
    if s == [] {
      if t != [] { FirstIn(t); }
    } else {
      assert s[0] in t && t != [] && t[0] in s;
      FirstIsLeast(s, t[0]);
      FirstIsLeast(t, s[0]);
      forall e ensures e in s[1..] <==> e in t[1..] {
        TailMembers(s, e);
        TailMembers(t, e);
      }
      SameMembers(s[1..], t[1..]);
      assert s == [s[0]] + s[1..];
    }
  }

  lemma TailMembers(s: seq<Event>, e: Event)
    requires Sorted(s) && s != []
    ensures e in s[1..] <==> e in s && e != s[0]
  {
    if e in s && e != s[0] {
      var i :| 0 <= i < |s| && s[i] == e;
      assert s[1..][i - 1] == e;
    }
  }

  /** With distinct ids no event is there twice. */
  lemma {:induction false} DistinctOnce(s: seq<Event>, e: Event)
    requires DistinctUids(s)
    ensures multiset(s)[e] <= 1
  {
    if s != [] {
      var t := s[1..];
      DistinctOnce(t, e);
      assert s == [s[0]] + t;
      if e in t {
        var i :| 0 <= i < |t| && t[i] == e;
        assert s[i + 1] == e;
      }
    }
  }

  /** An event list is determined by the events it holds. */
  lemma EventListUnique(s: seq<Event>, t: seq<Event>)
    requires Sorted(s) && Sorted(t) && multiset(s) == multiset(t)
    ensures s == t
  {
    forall e ensures e in s <==> e in t {
      assert e in s <==> e in multiset(s);
      assert e in t <==> e in multiset(t);
    }
    SameMembers(s, t);
  }
}
