/** What the parts of a connection summary say of its exchanges
    (src/control_plane/sessions.rs). */
module ConnectionsMeaning {
  import opened Options
  import opened Selections
  import opened Connections
  import Sorting
  import Sweep

  // ----- grouping -----

  function MemberOf(cid: string): Exchange -> Option<Exchange> {
    (e: Exchange) => if e.connectionId == Some(cid) then Some(e) else None
  }

  lemma MembersLast(sessions: seq<Exchange>, cid: string)
    requires sessions != []
    ensures var n := |sessions| - 1;
            Members(sessions, cid) == Members(sessions[..n], cid) + First(MemberOf(cid), sessions[n])
  {}

  /** The members of a connection are all exchanges recorded on it, in their order. */
  lemma {:induction false} MembersSelected(sessions: seq<Exchange>, cid: string)
    ensures Selects(MemberOf(cid), sessions, Members(sessions, cid))
  {
    if sessions == [] {
      SelectsNone(MemberOf(cid));
    } else {
      var n := |sessions| - 1;
      MembersSelected(sessions[..n], cid);
      SelectsLast(MemberOf(cid), sessions[..n], Members(sessions[..n], cid), sessions[n]);
      MembersLast(sessions, cid);
      assert sessions[..n] + [sessions[n]] == sessions;
    }
  }

  function IdsOf(sessions: seq<Exchange>): seq<Option<string>> {
    seq(|sessions|, i requires 0 <= i < |sessions| => sessions[i].connectionId)
  }

  function Known(ids: seq<string>): seq<Option<string>> {
    seq(|ids|, i requires 0 <= i < |ids| => Some(ids[i]))
  }

  lemma IdsGrow(sessions: seq<Exchange>, e: Exchange)
    ensures IdsOf(sessions + [e]) == IdsOf(sessions) + [e.connectionId]
  {}

  lemma KnownGrow(ids: seq<string>, id: string)
    ensures Known(ids + [id]) == Known(ids) + [Some(id)]
  {}

  lemma NotSeenYet(sessions: seq<Exchange>, cid: string)
    requires cid !in FirstSeenIds(sessions)
    ensures Some(cid) !in IdsOf(sessions)
  {
    FirstSeenIdsComplete(sessions);
    assert forall i :: 0 <= i < |sessions| ==> sessions[i] in sessions;
  }

  /** Connections are taken in order of first appearance, each once. */
  lemma {:induction false} FirstSeenExactly(sessions: seq<Exchange>)
    ensures InOrderOfAppearance(IdsOf(sessions), Known(FirstSeenIds(sessions)))
    ensures forall cid :: cid in FirstSeenIds(sessions) <==> HasExchange(sessions, cid)
  {
    FirstSeenIdsComplete(sessions);
    if sessions == [] {
      NothingAppears(IdsOf(sessions));
    } else {
      var n := |sessions| - 1;
      var front, last := sessions[..n], sessions[n];
      var ids := FirstSeenIds(front);
      FirstSeenExactly(front);
      IdsGrow(front, last);
      assert front + [last] == sessions;
      if last.connectionId.Some? && last.connectionId.value !in ids {
        NotSeenYet(front, last.connectionId.value);
        AppearsLast(IdsOf(front), Known(ids), last.connectionId);
        KnownGrow(ids, last.connectionId.value);
      } else {
        AppearsStill(IdsOf(front), Known(ids), last.connectionId);
      }
    }
  }

  // ----- one stream -----

  /** Whole milliseconds, the rest cut off. */
  lemma MillisExactly(nanos: int)
    ensures var ms := Millis(nanos);
            if nanos >= 0 then ms * 1_000_000 <= nanos < (ms + 1) * 1_000_000
            else (ms - 1) * 1_000_000 < nanos <= ms * 1_000_000
  {}

  /** A number of 64 bits with sign that is the same modulo 2^64. */
  lemma WrapExactly(x: int)
    ensures -(I64_LIMIT as int) <= WrapI64(x) < I64_LIMIT && exists k: int :: x == WrapI64(x) + k * U64_LIMIT
  {
    var k := x / U64_LIMIT;
    assert x == x % U64_LIMIT + k * U64_LIMIT;
    assert WrapI64(x) == x % U64_LIMIT || x == WrapI64(x) + (k + 1) * U64_LIMIT;
  }

  /** The part of a URL in front of its query. */
  lemma {:induction false} PathExactly(uri: string, path: string)
    ensures path == PathOf(uri) <==> '?' !in path && (uri == path || path + "?" <= uri)
  {
    if uri != "" {
      if uri[0] == '?' {
        if path + "?" <= uri && path != "" { assert path[0] == uri[0]; }
        assert "" + "?" <= uri;
      } else if path != "" {
        PathExactly(uri[1..], path[1..]);
        assert path == [path[0]] + path[1..] && uri == [uri[0]] + uri[1..];
        assert path + "?" == [path[0]] + (path[1..] + "?");
      } else {
        assert "" + "?" == "?";
      }
    }
  }

  /** A status code was measured, or stands in the response, or is missing. */
  ghost predicate HasStatus(e: Exchange, status: nat) {
    if e.metrics.Some? then status == e.metrics.value.statusCode
    else if e.responseStatus.Some? then status == e.responseStatus.value
    else status == 0
  }

  lemma StatusExactly(e: Exchange, status: nat)
    ensures status == Status(e) <==> HasStatus(e, status)
  {}

  /** Stream `i` is the `i`-th member by stream id, as it was recorded. */
  lemma StreamSays(c: Summary, members: seq<Exchange>, i: nat)
    requires Describes(c, members) && i < |c.streams|
    ensures var e, s := Sorting.Sort(StreamLeq, members)[i], c.streams[i];
            && s.id == e.id && s.streamId == e.streamId && s.verb == e.verb && s.host == e.host
            && '?' !in s.path && (e.uri == s.path || s.path + "?" <= e.uri)
            && HasStatus(e, s.status) && s.timestamp == e.timestamp
            && s.startOffsetMs * 1_000_000 <= e.timestamp - c.firstSeen < (s.startOffsetMs + 1) * 1_000_000
            && s.durationMs == if e.metrics.Some? then e.metrics.value.latencyMs else 0
  {
    var ordered := Sorting.Sort(StreamLeq, members);
    var e := ordered[i];
    assert e in multiset(ordered) && e in members;
    PathExactly(e.uri, PathOf(e.uri));
    StatusExactly(e, Status(e));
    MillisExactly(e.timestamp - c.firstSeen);
  }

  /** The protocol of a connection is the first that was recorded on it. */
  lemma {:induction false} ProtocolExactly(ms: seq<Exchange>)
    ensures FirstProtocol(ms).None? <==> forall i :: 0 <= i < |ms| ==> ms[i].downstreamProtocol.None?
    ensures FirstProtocol(ms).Some? ==>
              exists i :: 0 <= i < |ms| && ms[i].downstreamProtocol == FirstProtocol(ms)
                          && forall k :: 0 <= k < i ==> ms[k].downstreamProtocol.None?
  {
    if ms != [] && ms[0].downstreamProtocol.None? {
      var rest := ms[1..];
      ProtocolExactly(rest);
      assert forall k :: 0 <= k < |rest| ==> rest[k] == ms[k + 1];
      if FirstProtocol(rest).Some? {
        var i :| 0 <= i < |rest| && rest[i].downstreamProtocol == FirstProtocol(rest)
                 && forall k :: 0 <= k < i ==> rest[k].downstreamProtocol.None?;
        assert ms[i + 1].downstreamProtocol == FirstProtocol(ms);
        forall k | 0 <= k < i + 1 ensures ms[k].downstreamProtocol.None? { if k > 0 { assert ms[k] == rest[k - 1]; } }
      } else {
        forall k | 0 <= k < |ms| ensures ms[k].downstreamProtocol.None? { if k > 0 { assert ms[k] == rest[k - 1]; } }
      }
    }
  }

  // ----- the whole timeline -----

  /** Streams come by number, those without one as if they had number 0. */
  lemma StreamsByNumber(c: Summary, members: seq<Exchange>, i: nat, j: nat)
    requires Describes(c, members) && i < j < |c.streams|
    ensures GetOr(c.streams[i].streamId, 0) <= GetOr(c.streams[j].streamId, 0)
  {
    StreamLeqTotal();
    Sorting.SortSorted(StreamLeq, members);
    var ordered := Sorting.Sort(StreamLeq, members);
    NumberOrder(ordered[i], ordered[j]);
    StreamSays(c, members, i);
    StreamSays(c, members, j);
  }

  lemma NumberOrder(a: Exchange, b: Exchange)
    ensures StreamLeq(a, b) <==> GetOr(a.streamId, 0) <= GetOr(b.streamId, 0)
  {}

  /** The end of every stream is a number of 64 bits. */
  ghost predicate EndsFit(c: Summary) {
    forall i :: 0 <= i < |c.streams| ==> c.streams[i].startOffsetMs + c.streams[i].durationMs < I64_LIMIT
  }

  /** From when to when each stream was open. */
  function Openings(c: Summary): seq<Sweep.Interval> {
    seq(|c.streams|, i requires 0 <= i < |c.streams| =>
      (c.streams[i].startOffsetMs, c.streams[i].startOffsetMs + c.streams[i].durationMs))
  }

  lemma FittingInterval(e: Exchange, first: int)
    requires first <= e.timestamp && StartOffset(e, first) + Duration(e) < I64_LIMIT
    ensures IntervalOf(e, first) == (StartOffset(e, first), StartOffset(e, first) + Duration(e))
  {
    StreamFits(e, first);
  }

  /** The member that stream `i` shows. */
  lemma Shown(c: Summary, members: seq<Exchange>, i: nat) returns (e: Exchange)
    requires Describes(c, members) && i < |c.streams|
    ensures e == Sorting.Sort(StreamLeq, members)[i] && e in members && c.firstSeen <= e.timestamp
    ensures c.streams[i] == StreamOf(e, c.firstSeen)
  {
    e := Sorting.Sort(StreamLeq, members)[i];
    assert e in multiset(Sorting.Sort(StreamLeq, members)) && e in members;
  }

  lemma OneOpening(c: Summary, members: seq<Exchange>, i: nat)
    requires Describes(c, members) && EndsFit(c) && i < |c.streams|
    ensures var e := Sorting.Sort(StreamLeq, members)[i];
            e in members && Openings(c)[i] == IntervalOf(e, c.firstSeen)
  {
    var e := Shown(c, members, i);
    OpeningOf(c, i, e);
  }

  lemma OpeningOf(c: Summary, i: nat, e: Exchange)
    requires i < |c.streams| && EndsFit(c) && c.firstSeen <= e.timestamp && c.streams[i] == StreamOf(e, c.firstSeen)
    ensures Openings(c)[i] == IntervalOf(e, c.firstSeen)
  {
    assert c.streams[i].startOffsetMs + c.streams[i].durationMs < I64_LIMIT;
    FittingInterval(e, c.firstSeen);
  }

  lemma OpeningsAreIntervals(c: Summary, members: seq<Exchange>)
    requires Describes(c, members) && EndsFit(c)
    ensures Openings(c) == Intervals(Sorting.Sort(StreamLeq, members), c.firstSeen)
  {
    forall i: nat | i < |c.streams|
      ensures Openings(c)[i] == Intervals(Sorting.Sort(StreamLeq, members), c.firstSeen)[i]
    {
      OneOpening(c, members, i);
    }
  }

  /** The peak of a connection is the largest number of its streams open at one instant. */
  lemma PeakExactly(c: Summary, members: seq<Exchange>)
    requires Describes(c, members) && EndsFit(c)
    ensures Sweep.IsPeak(Openings(c), c.maxConcurrency)
  {
    OpeningsAreIntervals(c, members);
  }

  /** Its span is the least that covers the activity and every stream. */
  lemma SpanExactly(c: Summary, members: seq<Exchange>)
    requires Describes(c, members) && EndsFit(c)
    ensures Millis(c.lastSeen - c.firstSeen) <= c.spanMs
    ensures forall i :: 0 <= i < |c.streams| ==> c.streams[i].startOffsetMs + c.streams[i].durationMs <= c.spanMs
    ensures c.spanMs == Millis(c.lastSeen - c.firstSeen)
            || exists i :: 0 <= i < |c.streams| && c.streams[i].startOffsetMs + c.streams[i].durationMs == c.spanMs
  {
    var ordered := Sorting.Sort(StreamLeq, members);
    SameMembers(ordered, members);
    forall i: nat | i < |c.streams|
      ensures Openings(c)[i].1 == EndOffset(ordered[i], c.firstSeen) && ordered[i] in members
    {
      OneOpening(c, members, i);
    }
    forall i: nat | i < |c.streams| ensures c.streams[i].startOffsetMs + c.streams[i].durationMs <= c.spanMs {
      assert Openings(c)[i].1 <= c.spanMs;
    }
    if c.spanMs != Millis(c.lastSeen - c.firstSeen) {
      var e :| e in members && EndOffset(e, c.firstSeen) == c.spanMs;
      var i :| 0 <= i < |ordered| && ordered[i] == e;
      assert Openings(c)[i].1 == c.spanMs;
    }
  }
}
