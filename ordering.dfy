/**
 * Event ordering: the red-black tree of CountTurns.js, keyed on `time` by the comparator
 * `a.time - b.time`, seen through its in-order contents. A tree whose comparator calls two
 * events equal refuses the second one, so a later event whose time is already present is
 * dropped: the first arrival wins.
 */
module Ordering {
  import opened Events

  /** In-order contents of a search tree keyed on time: times strictly increase. */
  ghost predicate StrictlyOrdered(s: seq<Event>) {
    forall i, j :: 0 <= i < j < |s| ==> s[i].time < s[j].time
  }

  ghost predicate HasTime(s: seq<Event>, t: int) {
    exists x :: x in s && x.time == t
  }

  lemma OrderedHead(s: seq<Event>)
    requires StrictlyOrdered(s) && s != []
    ensures forall y :: y in s[1..] ==> s[0].time < y.time
  {
    forall y | y in s[1..]
      ensures s[0].time < y.time
    {
      var k :| 0 <= k < |s| - 1 && s[1..][k] == y;
      assert s[k + 1] == y;
    }
  }

  lemma PrependKeepsOrder(x: Event, t: seq<Event>)
    requires StrictlyOrdered(t)
    requires forall y :: y in t ==> x.time < y.time
    ensures StrictlyOrdered([x] + t)
  {
    forall i, j | 0 <= i < j < |t| + 1
      ensures ([x] + t)[i].time < ([x] + t)[j].time
    {
      assert ([x] + t)[j] == t[j - 1];
      if i > 0 {
        assert ([x] + t)[i] == t[i - 1];
      } else {
        assert t[j - 1] in t;
      }
    }
  }

  lemma TailOrdered(s: seq<Event>)
    requires StrictlyOrdered(s) && s != []
    ensures StrictlyOrdered(s[1..])
  {
  }

  /** Tree insertion on the in-order contents: a new time goes in its place, a known time is refused. */
  function InsertByTime(s: seq<Event>, e: Event): (r: seq<Event>)
    requires StrictlyOrdered(s)
    ensures StrictlyOrdered(r)
    ensures forall x :: x in r ==> x in s || x == e
  {
    if s == [] then [e]
    else if e.time < s[0].time then [e] + s
    else if e.time == s[0].time then s
    else
      var t := InsertByTime(s[1..], e);
      OrderedHead(s);
      PrependKeepsOrder(s[0], t);
      assert s == [s[0]] + s[1..];
      [s[0]] + t
  }

  /** Inserting the events one after another, in input order, as the loop over the input does. */
  function InsertAll(s: seq<Event>, es: seq<Event>): (r: seq<Event>)
    requires StrictlyOrdered(s)
    ensures StrictlyOrdered(r)
  {
    if es == [] then s
    else InsertByTime(InsertAll(s, es[..|es| - 1]), es[|es| - 1])
  }

  /** The order in which the walk visits the input: everything inserted into an empty tree. */
  function SortByTime(input: seq<Event>): (r: seq<Event>)
    ensures StrictlyOrdered(r)
  {
    InsertAll([], input)
  }

  /** No earlier input event has the time of input[j]. */
  ghost predicate FirstArrival(input: seq<Event>, j: int)
    requires 0 <= j < |input|
  {
    forall i :: 0 <= i < j ==> input[i].time != input[j].time
  }

  ghost predicate DistinctTimes(input: seq<Event>) {
    forall i, j :: 0 <= i < j < |input| ==> input[i].time != input[j].time
  }

  /**
   * The search of a tree insertion, on the in-order contents: the first position whose time
   * is not below `time`. The event goes there unless that position already holds `time`.
   */
  method FindSlot(s: seq<Event>, time: int) returns (i: nat)
    requires StrictlyOrdered(s)
    ensures i <= |s|
    ensures forall k :: 0 <= k < i ==> s[k].time < time
    ensures forall k :: i <= k < |s| ==> time <= s[k].time
  {
    var lo, hi := 0, |s|;
    while lo < hi
      invariant 0 <= lo <= hi <= |s|
      invariant forall k :: 0 <= k < lo ==> s[k].time < time
      invariant forall k :: hi <= k < |s| ==> time <= s[k].time
    {
      var mid := (lo + hi) / 2;
      if s[mid].time < time {
        lo := mid + 1;
      } else {
        hi := mid;
      }
    }
    i := lo;
  }

  lemma InsertStep(s: seq<Event>, e: Event)
    requires StrictlyOrdered(s) && s != [] && s[0].time < e.time
    ensures StrictlyOrdered(s[1..])
    ensures InsertByTime(s, e) == [s[0]] + InsertByTime(s[1..], e)
  {
  }

  /** A known time leaves the tree as it was; a new one adds exactly the event. */
  lemma {:induction false} InsertByTimeContents(s: seq<Event>, e: Event)
    requires StrictlyOrdered(s)
    ensures HasTime(s, e.time) ==> InsertByTime(s, e) == s
    ensures !HasTime(s, e.time) ==>
              |InsertByTime(s, e)| == |s| + 1 && forall x :: x in InsertByTime(s, e) <==> x in s || x == e
  {
    if s != [] && s[0].time < e.time {
      InsertStep(s, e);
      InsertByTimeContents(s[1..], e);
      assert s == [s[0]] + s[1..];
      assert HasTime(s, e.time) <==> HasTime(s[1..], e.time);
    } else if s != [] && s[0].time == e.time {
      assert s[0] in s;
    }
  }

  /** Inserting at the slot the search finds is the tree insertion. */
  lemma {:induction false} InsertAtSlot(s: seq<Event>, e: Event, i: nat)
    requires StrictlyOrdered(s) && i <= |s|
    requires forall k :: 0 <= k < i ==> s[k].time < e.time
    requires forall k :: i <= k < |s| ==> e.time <= s[k].time
    ensures InsertByTime(s, e) == if i < |s| && s[i].time == e.time then s else s[..i] + [e] + s[i..]
  {
    if s == [] {
    } else if i == 0 {
      assert s[..0] == [] && s[0..] == s;
    } else {
      var tail := s[1..];
      TailOrdered(s);
      InsertStep(s, e);
      InsertAtSlot(tail, e, i - 1);
      if i < |s| {
        assert tail[i - 1] == s[i];
      }
      SpliceStep(s, e, i, InsertByTime(tail, e));
    }
  }

  /** Putting the head back in front of the tail's insertion gives the insertion into the whole. */
  lemma SpliceStep(s: seq<Event>, e: Event, i: nat, r: seq<Event>)
    requires 0 < i <= |s|
    requires r == if i < |s| && s[i].time == e.time then s[1..] else s[1..][..i - 1] + [e] + s[1..][i - 1..]
    ensures [s[0]] + r == if i < |s| && s[i].time == e.time then s else s[..i] + [e] + s[i..]
  {
    assert [s[0]] + s[1..] == s;
    assert s[1..][..i - 1] == s[1..i];
    assert s[1..][i - 1..] == s[i..];
    assert [s[0]] + s[1..i] == s[..i];
  }

  /** The walk visits an event at every time that occurs in the input, and at no other. */
  lemma {:induction false} SortByTimeTimes(input: seq<Event>)
    ensures forall t :: HasTime(SortByTime(input), t) <==> HasTime(input, t)
  {
    if input != [] {
      var n := |input|;
      var p, e := input[..n - 1], input[n - 1];
      SortByTimeTimes(p);
      var s := SortByTime(p);
      var r := SortByTime(input);
      assert r == InsertByTime(s, e);
      InsertByTimeContents(s, e);
      assert input == p + [e];
      forall t
        ensures HasTime(r, t) <==> HasTime(input, t)
      {
        if HasTime(input, t) {
          var x :| x in input && x.time == t;
          if x in p {
            assert HasTime(p, t);
            var y :| y in s && y.time == t;
            assert y in r;
          } else if HasTime(s, e.time) {
            var y :| y in s && y.time == t;
            assert y in r;
          } else {
            assert e in r;
          }
        }
        if HasTime(r, t) {
          var y :| y in r && y.time == t;
          if y in s {
            assert HasTime(s, t);
            var x :| x in p && x.time == t;
            assert x in input;
          } else {
            assert y == e && e in input;
          }
        }
      }
    }
  }

  /** The last input event is a first arrival exactly when no earlier event has its time. */
  lemma LastFirstArrival(input: seq<Event>)
    requires input != []
    ensures FirstArrival(input, |input| - 1) <==> !HasTime(input[..|input| - 1], input[|input| - 1].time)
  {
    var n := |input|;
    var p, e := input[..n - 1], input[n - 1];
    if HasTime(p, e.time) {
      var y :| y in p && y.time == e.time;
      var k :| 0 <= k < n - 1 && p[k] == y;
      assert input[k].time == e.time;
    } else {
      forall i | 0 <= i < n - 1
        ensures input[i].time != e.time
      {
        assert p[i] in p;
      }
    }
  }

  /** The position of the first input event with time t, or -1 when no event has that time. */
  function FirstWithTime(input: seq<Event>, t: int): (j: int)
    ensures -1 <= j < |input|
    ensures j == -1 ==> forall i :: 0 <= i < |input| ==> input[i].time != t
    ensures j >= 0 ==> input[j].time == t && FirstArrival(input, j)
  {
    if input == [] then -1
    else
      var n := |input|;
      var j := FirstWithTime(input[..n - 1], t);
      if j >= 0 then j
      else if input[n - 1].time == t then n - 1
      else -1
  }

  /** Every event the walk visits is the first input event with its time. */
  lemma {:induction false} SortByTimeSound(input: seq<Event>)
    ensures forall x :: x in SortByTime(input) ==>
              0 <= FirstWithTime(input, x.time) && input[FirstWithTime(input, x.time)] == x
  {
    if input != [] {
      var n := |input|;
      var p, e := input[..n - 1], input[n - 1];
      SortByTimeSound(p);
      var s := SortByTime(p);
      var r := SortByTime(input);
      assert r == InsertByTime(s, e);
      InsertByTimeContents(s, e);
      forall x | x in r
        ensures 0 <= FirstWithTime(input, x.time) && input[FirstWithTime(input, x.time)] == x
      {
        if x in s {
          assert FirstWithTime(input, x.time) == FirstWithTime(p, x.time);
        } else {
          assert x == e && !HasTime(s, e.time);
          SortByTimeTimes(p);
          if FirstWithTime(p, e.time) >= 0 {
            assert p[FirstWithTime(p, e.time)] in p;
          }
        }
      }
    }
  }

  lemma InsertKeepsMember(s: seq<Event>, e: Event, x: Event)
    requires StrictlyOrdered(s) && x in s
    ensures x in InsertByTime(s, e)
  {
    InsertByTimeContents(s, e);
  }

  lemma InsertAddsNew(s: seq<Event>, e: Event)
    requires StrictlyOrdered(s) && !HasTime(s, e.time)
    ensures e in InsertByTime(s, e)
  {
    InsertByTimeContents(s, e);
  }

  /** The last input event is visited when it is the first at its time. */
  lemma LastArrivalVisited(input: seq<Event>)
    requires input != [] && FirstArrival(input, |input| - 1)
    ensures input[|input| - 1] in SortByTime(input)
  {
    var p, e := input[..|input| - 1], input[|input| - 1];
    LastFirstArrival(input);
    SortByTimeTimes(p);
    assert !HasTime(SortByTime(p), e.time);
    InsertAddsNew(SortByTime(p), e);
  }

  /** Every input event that arrived first at its time is visited. */
  lemma {:induction false} SortByTimeComplete(input: seq<Event>)
    ensures forall j :: 0 <= j < |input| && FirstArrival(input, j) ==> input[j] in SortByTime(input)
  {
    if input != [] {
      var n := |input|;
      var p, e := input[..n - 1], input[n - 1];
      SortByTimeComplete(p);
      var s := SortByTime(p);
      assert SortByTime(input) == InsertByTime(s, e);
      forall j | 0 <= j < n && FirstArrival(input, j)
        ensures input[j] in InsertByTime(s, e)
      {
        if j < n - 1 {
          assert p[j] == input[j] && FirstArrival(p, j);
          InsertKeepsMember(s, e, input[j]);
        } else {
          LastArrivalVisited(input);
        }
      }
    }
  }

  /** A first arrival is the first event with its time. */
  lemma FirstWithTimeOfFirstArrival(input: seq<Event>, f: int)
    requires 0 <= f < |input| && FirstArrival(input, f)
    ensures FirstWithTime(input, input[f].time) == f
  {
  }

  /**
   * First arrival wins: a first arrival is visited, and it is the only event visited at its
   * time, so any later input event with that time is dropped (unless it is the same value).
   */
  lemma FirstArrivalWins(input: seq<Event>, f: int)
    requires 0 <= f < |input| && FirstArrival(input, f)
    ensures input[f] in SortByTime(input)
    ensures forall x :: x in SortByTime(input) && x.time == input[f].time ==> x == input[f]
  {
    SortByTimeSound(input);
    SortByTimeComplete(input);
    FirstWithTimeOfFirstArrival(input, f);
  }

  /** The head of a time-ordered sequence is its only member with the earliest time. */
  lemma HeadIsEarliest(s: seq<Event>, x: Event)
    requires StrictlyOrdered(s) && x in s
    ensures s[0].time <= x.time
    ensures x.time == s[0].time ==> x == s[0]
    ensures x in s[1..] <==> x != s[0]
  {
    var k :| 0 <= k < |s| && s[k] == x;
    if k > 0 {
      assert s[1..][k - 1] == x;
    }
    if x in s[1..] {
      var m :| 0 <= m < |s| - 1 && s[1..][m] == x;
      assert s[m + 1] == x;
    }
  }

  /** Two time-ordered sequences with the same members are the same sequence. */
  lemma {:induction false} StrictlyOrderedUnique(s1: seq<Event>, s2: seq<Event>)
    requires StrictlyOrdered(s1) && StrictlyOrdered(s2)
    requires forall x :: x in s1 <==> x in s2
    ensures s1 == s2
  {
    assert (s1 == []) == (s2 == []) by {
      if s1 != [] {
        assert s1[0] in s2;
      }
      if s2 != [] {
        assert s2[0] in s1;
      }
    }
    if s1 != [] {
      assert s1[0] in s1 && s2[0] in s2;
      HeadIsEarliest(s1, s2[0]);
      HeadIsEarliest(s2, s1[0]);
      assert s1[0] == s2[0];
      forall x
        ensures x in s1[1..] <==> x in s2[1..]
      {
        if x in s1 {
          HeadIsEarliest(s1, x);
          HeadIsEarliest(s2, x);
        } else {
          assert x !in s1[1..] && x !in s2[1..];
        }
      }
      TailOrdered(s1);
      TailOrdered(s2);
      StrictlyOrderedUnique(s1[1..], s2[1..]);
      assert s1 == [s1[0]] + s1[1..];
      assert s2 == [s2[0]] + s2[1..];
    }
  }

  lemma {:induction false} AtMostOneCopy(s: seq<Event>, x: Event)
    requires DistinctTimes(s)
    ensures multiset(s)[x] <= 1
  {
    if s != [] {
      var n := |s|;
      AtMostOneCopy(s[..n - 1], x);
      assert s == s[..n - 1] + [s[n - 1]];
    }
  }

  /** A permutation of events with distinct times has distinct times. */
  lemma DistinctTimesPermuted(a: seq<Event>, b: seq<Event>)
    requires DistinctTimes(a) && multiset(a) == multiset(b)
    ensures DistinctTimes(b)
  {
    forall i, j | 0 <= i < j < |b|
      ensures b[i].time != b[j].time
    {
      if b[i].time == b[j].time {
        assert b[i] in multiset(a) && b[j] in multiset(a);
        var i' :| 0 <= i' < |a| && a[i'] == b[i];
        var j' :| 0 <= j' < |a| && a[j'] == b[j];
        if b[i] == b[j] {
          assert b == b[..j] + [b[j]] + b[j + 1..];
          assert b[i] in b[..j];
          assert multiset(b)[b[j]] >= 2;
          AtMostOneCopy(a, b[j]);
        }
      }
    }
  }

  /**
   * With distinct timestamps the order in which the events arrive does not matter:
   * any permutation of the input is visited in the same order.
   */
  lemma OrderingInvariance(a: seq<Event>, b: seq<Event>)
    requires DistinctTimes(a) && multiset(a) == multiset(b)
    ensures SortByTime(a) == SortByTime(b)
  {
    DistinctTimesPermuted(a, b);
    SortByTimeSound(a);
    SortByTimeComplete(a);
    SortByTimeSound(b);
    SortByTimeComplete(b);
    forall x
      ensures x in SortByTime(a) <==> x in SortByTime(b)
    {
      assert x in a <==> x in b by {
        assert x in a <==> x in multiset(a);
        assert x in b <==> x in multiset(b);
      }
      if x in a {
        var j :| 0 <= j < |a| && a[j] == x;
        assert FirstArrival(a, j);
      }
      if x in b {
        var j :| 0 <= j < |b| && b[j] == x;
        assert FirstArrival(b, j);
      }
      if x in SortByTime(a) {
        assert a[FirstWithTime(a, x.time)] == x;
      }
      if x in SortByTime(b) {
        assert b[FirstWithTime(b, x.time)] == x;
      }
    }
    StrictlyOrderedUnique(SortByTime(a), SortByTime(b));
  }

  /** A tie is not broken but resolved by loss: another vehicle's event at a time already taken is never visited. */
  lemma TiedEventOfOtherVehicleLost()
    ensures SortByTime([Event(1, 0, "A"), Event(2, 0, "B")]) == [Event(1, 0, "A")]
  {
    var first, second := Event(1, 0, "A"), Event(2, 0, "B");
    var input := [first, second];
    assert input[..1] == [first] && [first][..0] == [];
    assert InsertAll([], [first]) == InsertByTime([], first) == [first];
    assert InsertAll([], input) == InsertByTime([first], second) == [first];
  }

  /** Of two events at the same time after a first one, the tree keeps only the one inserted first. */
  lemma SecondTiedEventDropped(first: Event, x: Event, y: Event)
    requires first.time < x.time == y.time
    ensures SortByTime([first, x, y]) == [first, x]
  {
    var input := [first, x, y];
    assert input[..2] == [first, x] && input[..2][..1] == [first] && [first][..0] == [];
    assert InsertAll([], [first]) == InsertByTime([], first) == [first];
    assert InsertAll([], input[..2]) == InsertByTime([first], x) == [first, x];
    InsertStep([first, x], y);
    assert [first, x][1..] == [x];
  }
}
