/** The endpoint sweep of src/control_plane/sessions.rs: the peak number of
    half-open intervals in flight at one instant. */
module Sweep {
  import Sorting

  type Interval = (int, int)
  /** A point in time with +1 for a start and -1 for an end. */
  type Event = (int, int)

  function Max(a: int, b: int): int { if a < b then b else a }

  predicate Covers(iv: Interval, t: int) {
    iv.0 <= t < Max(iv.0, iv.1)
  }

  /** How many intervals are open at instant `t`. */
  function InFlight(ivs: seq<Interval>, t: int): (n: nat)
    ensures n <= |ivs|
  {
    if ivs == [] then 0
    else InFlight(ivs[1..], t) + if Covers(ivs[0], t) then 1 else 0
  }

  /** `peak` is the maximum of InFlight over all instants. */
  ghost predicate IsPeak(ivs: seq<Interval>, peak: int) {
    && (forall t :: InFlight(ivs, t) <= peak)
    && (exists t :: InFlight(ivs, t) == peak)
  }

  predicate EventLeq(a: Event, b: Event) {
    a.0 < b.0 || (a.0 == b.0 && a.1 <= b.1)
  }

  ghost function Events(ivs: seq<Interval>): (r: seq<Event>)
  {
    if ivs == [] then []
    else [(ivs[0].0, 1), (Max(ivs[0].1, ivs[0].0), -1)] + Events(ivs[1..])
  }

  /** The running count after the first `n` events. */
  ghost function Total(evs: seq<Event>, n: nat): int
    requires n <= |evs|
  {
    if n == 0 then 0 else Total(evs, n - 1) + evs[n - 1].1
  }

  /** The sum of the deltas up to and including instant `t`. */
  ghost function Level(evs: seq<Event>, t: int): int {
    if evs == [] then 0
    else Level(evs[1..], t) + if evs[0].0 <= t then evs[0].1 else 0
  }

  lemma {:induction false} LevelAppend(a: seq<Event>, b: seq<Event>, t: int)
    ensures Level(a + b, t) == Level(a, t) + Level(b, t)
  {
    if a == [] {
      assert a + b == b;
    } else {
      LevelAppend(a[1..], b, t);
      assert (a + b)[1..] == a[1..] + b;
    }
  }

  lemma {:induction false} LevelOfEvents(ivs: seq<Interval>, t: int)
    ensures Level(Events(ivs), t) == InFlight(ivs, t)
  {
    if ivs != [] {
      LevelOfEvents(ivs[1..], t);
      var two: seq<Event> := [(ivs[0].0, 1), (Max(ivs[0].1, ivs[0].0), -1)];
      LevelAppend(two, Events(ivs[1..]), t);
      assert two[1..] == [two[1]] && |two[1..][1..]| == 0;
    }
  }

  lemma LevelAround(b: seq<Event>, k: nat, t: int)
    requires k < |b|
    ensures Level(b, t) == Level([b[k]], t) + Level(b[..k] + b[k + 1..], t)
  {
    LevelAppend(b[..k], b[k + 1..], t);
    LevelAppend(b[..k], [b[k]] + b[k + 1..], t);
    LevelAppend([b[k]], b[k + 1..], t);
    assert b == b[..k] + ([b[k]] + b[k + 1..]);
  }

  lemma {:induction false} LevelOfPermutation(a: seq<Event>, b: seq<Event>, t: int)
    requires multiset(a) == multiset(b)
    ensures Level(a, t) == Level(b, t)
  {
    if a == [] {
      assert |multiset(b)| == 0;
    } else {
      assert a[0] in multiset(b);
      var k :| 0 <= k < |b| && b[k] == a[0];
      Sorting.PermutedRest(a, b, k);
      LevelOfPermutation(a[1..], b[..k] + b[k + 1..], t);
      LevelAround(b, k, t);
      LevelAround(a, 0, t);
      assert a[..0] + a[1..] == a[1..];
    }
  }

  lemma {:induction false} AllEarly(evs: seq<Event>, n: nat, t: int)
    requires n <= |evs| && forall k :: 0 <= k < n ==> evs[k].0 <= t
    ensures Level(evs[..n], t) == Total(evs, n)
  {
    if n > 0 {
      AllEarly(evs, n - 1, t);
      LevelAppend(evs[..n - 1], [evs[n - 1]], t);
      assert evs[..n] == evs[..n - 1] + [evs[n - 1]];
    }
  }

  /** The events up to `t` are a prefix of the sorted events. */
  lemma {:induction false} LevelIsPrefixTotal(evs: seq<Event>, n: nat, t: int)
    requires Sorting.Sorted(EventLeq, evs) && n <= |evs|
    requires forall k :: n <= k < |evs| ==> evs[k].0 > t
    ensures exists m :: 0 <= m <= n && Level(evs, t) == Total(evs, m)
  {
    if n == 0 || evs[n - 1].0 <= t {
      forall k | 0 <= k < n ensures evs[k].0 <= t { BeforeStart(evs, n - 1, k); }
      AllEarly(evs, n, t);
      LevelAppend(evs[..n], evs[n..], t);
      assert evs == evs[..n] + evs[n..];
      AllLate(evs[n..], t);
    } else {
      LevelIsPrefixTotal(evs, n - 1, t);
    }
  }

  lemma {:induction false} AllLate(evs: seq<Event>, t: int)
    requires forall e :: e in evs ==> e.0 > t
    ensures Level(evs, t) == 0
  {
    if evs != [] {
      AllLate(evs[1..], t);
    }
  }

  lemma BeforeStart(evs: seq<Event>, i: nat, k: nat)
    requires Sorting.Sorted(EventLeq, evs) && k <= i < |evs|
    ensures evs[k].0 <= evs[i].0
  {
    assert k < i ==> EventLeq(evs[k], evs[i]);
  }

  lemma AfterStart(evs: seq<Event>, i: nat, k: nat)
    requires Sorting.Sorted(EventLeq, evs) && Deltas(evs) && i < k < |evs| && evs[i].1 == 1
    ensures evs[k].0 > evs[i].0 || evs[k].1 == 1
  {
    assert EventLeq(evs[i], evs[k]);
  }

  /** After a start event, what is still to come at the same instant only adds. */
  lemma StartBelowLevel(evs: seq<Event>, i: nat)
    requires Sorting.Sorted(EventLeq, evs) && Deltas(evs)
    requires i < |evs| && evs[i].1 == 1
    ensures Total(evs, i + 1) <= Level(evs, evs[i].0)
  {
    var t := evs[i].0;
    var head, tail := evs[..i + 1], evs[i + 1..];
    assert evs == head + tail;
    LevelAppend(head, tail, t);
    forall k | 0 <= k < i + 1 ensures evs[k].0 <= t { BeforeStart(evs, i, k); }
    AllEarly(evs, i + 1, t);
    forall e | e in tail ensures e.0 > t || e.1 == 1 {
      var k :| 0 <= k < |tail| && tail[k] == e;
      AfterStart(evs, i, i + 1 + k);
    }
    OnlyStarts(tail, t);
  }

  lemma {:induction false} OnlyStarts(evs: seq<Event>, t: int)
    requires forall e :: e in evs ==> e.0 > t || e.1 == 1
    ensures Level(evs, t) >= 0
  {
    if evs != [] {
      OnlyStarts(evs[1..], t);
    }
  }

  ghost predicate Deltas(evs: seq<Event>) {
    forall e :: e in evs ==> e.1 == 1 || e.1 == -1
  }

  lemma {:induction false} EventDeltas(ivs: seq<Interval>)
    ensures Deltas(Events(ivs))
  {
    if ivs != [] {
      EventDeltas(ivs[1..]);
    }
  }

  lemma EventLeqTotal()
    ensures Sorting.TotalPreorder(EventLeq)
  {}

  lemma {:induction false} EventsAppend(a: seq<Interval>, iv: Interval)
    ensures Events(a + [iv]) == Events(a) + [(iv.0, 1), (Max(iv.1, iv.0), -1)]
  {
    if a == [] {
      assert a + [iv] == [iv] && [iv][1..] == [];
    } else {
      EventsAppend(a[1..], iv);
      assert (a + [iv])[1..] == a[1..] + [iv];
    }
  }

  /** A start for every interval, and an end that never precedes it. */
  method CollectEvents(intervals: seq<Interval>) returns (events: seq<Event>)
    ensures events == Events(intervals)
  {
    events := [];
    for i := 0 to |intervals|
      invariant events == Events(intervals[..i])
    {
      var iv := intervals[i];
      EventsAppend(intervals[..i], iv);
      assert intervals[..i + 1] == intervals[..i] + [iv];
      events := events + [(iv.0, 1), (Max(iv.1, iv.0), -1)];
    }
    assert intervals[..|intervals|] == intervals;
  }

  /** The sorted events agree with the intervals at every instant. */
  lemma SortedEvents(ivs: seq<Interval>, events: seq<Event>)
    requires events == Sorting.Sort(EventLeq, Events(ivs))
    ensures Sorting.Sorted(EventLeq, events) && Deltas(events)
    ensures forall t :: Level(events, t) == InFlight(ivs, t)
  {
    EventLeqTotal();
    Sorting.SortSorted(EventLeq, Events(ivs));
    EventDeltas(ivs);
    forall e | e in events
      ensures e.1 == 1 || e.1 == -1
    {
      assert e in multiset(events);
    }
    forall t
      ensures Level(events, t) == InFlight(ivs, t)
    {
      LevelOfPermutation(events, Events(ivs), t);
      LevelOfEvents(ivs, t);
    }
  }

  /** The running maximum over sorted events: it bounds every level and, where
      it is positive, the level at `best` reaches it. */
  method RunningPeak(events: seq<Event>) returns (peak: int, ghost best: int)
    requires Sorting.Sorted(EventLeq, events) && Deltas(events)
    requires forall t :: Level(events, t) >= 0
    ensures forall t :: Level(events, t) <= peak
    ensures 0 <= peak <= Level(events, best)
  {
    var cur := 0;
    peak, best := 0, 0;
    for i := 0 to |events|
      invariant cur == Total(events, i)
      invariant forall k :: 0 <= k <= i ==> Total(events, k) <= peak
      invariant 0 <= peak <= Level(events, best)
    {
      cur := cur + events[i].1;
      if peak < cur {
        StartBelowLevel(events, i);
        best := events[i].0;
      }
      peak := Max(peak, cur);
    }
    forall t
      ensures Level(events, t) <= peak
    {
      LevelIsPrefixTotal(events, |events|, t);
    }
  }

  /** `peak_concurrency`: exactly the maximum of InFlight over all instants. */
  method PeakConcurrency(intervals: seq<Interval>) returns (result: nat)
    ensures IsPeak(intervals, result)
  {
    var unsorted := CollectEvents(intervals);
    var events := Sorting.Sort(EventLeq, unsorted);
    SortedEvents(intervals, events);
    var peak, best := RunningPeak(events);
    assert InFlight(intervals, best) == peak;
    result := Max(peak, 0);
  }
}
