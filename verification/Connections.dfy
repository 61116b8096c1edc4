/** Grouping of recorded exchanges into per-connection summaries
    (src/control_plane/sessions.rs). Instants are nanoseconds. */
module Connections {
  import opened Options
  import opened Selections
  import Sorting
  import Sweep

  const NANOS_PER_MILLI := 1_000_000

  datatype Metrics = Metrics(latencyMs: nat, statusCode: nat)

  datatype Exchange = Exchange(
    id: string, connectionId: Option<string>, streamId: Option<nat>,
    timestamp: int, updatedAt: Option<int>, downstreamProtocol: Option<string>,
    verb: string, host: string, uri: string,
    responseStatus: Option<nat>, metrics: Option<Metrics>)

  datatype Stream = Stream(
    id: string, streamId: Option<nat>, verb: string, host: string, path: string,
    status: nat, timestamp: int, startOffsetMs: int, durationMs: nat)

  datatype Summary = Summary(
    connectionId: string, downstreamProtocol: Option<string>, hosts: seq<string>,
    exchangeCount: nat, streamCount: nat, firstSeen: int, lastSeen: int,
    spanMs: int, maxConcurrency: nat, streams: seq<Stream>)

  // ----- arithmetic of the source -----

  /** `TimeDelta::num_milliseconds`: truncation towards zero. */
  function Millis(nanos: int): int {
    if nanos >= 0 then nanos / NANOS_PER_MILLI else -((-nanos) / NANOS_PER_MILLI)
  }

  /** Two's complement reduction to `i64`. */
  function WrapI64(x: int): int {
    var r := x % U64_LIMIT;
    if r < I64_LIMIT then r else r - U64_LIMIT
  }

  function Duration(e: Exchange): nat {
    if e.metrics.Some? then e.metrics.value.latencyMs else 0
  }

  function Status(e: Exchange): nat {
    if e.metrics.Some? then e.metrics.value.statusCode else GetOr(e.responseStatus, 0)
  }

  /** The part of the URI before the first '?'. */
  function PathOf(uri: string): string {
    if uri == "" || uri[0] == '?' then "" else [uri[0]] + PathOf(uri[1..])
  }

  function StartOffset(e: Exchange, first: int): int { Millis(e.timestamp - first) }

  /** The end of a stream as the source computes it, in `i64`. */
  function EndOffset(e: Exchange, first: int): int {
    WrapI64(StartOffset(e, first) + WrapI64(Duration(e)))
  }

  function StreamOf(e: Exchange, first: int): Stream {
    Stream(e.id, e.streamId, e.verb, e.host, PathOf(e.uri), Status(e),
           e.timestamp, StartOffset(e, first), Duration(e))
  }

  function IntervalOf(e: Exchange, first: int): Sweep.Interval {
    (StartOffset(e, first), EndOffset(e, first))
  }

  function LastActive(e: Exchange): int { GetOr(e.updatedAt, e.timestamp) }

  predicate StreamLeq(a: Exchange, b: Exchange) {
    GetOr(a.streamId, 0) <= GetOr(b.streamId, 0)
  }

  predicate MoreRecent(a: Summary, b: Summary) { b.lastSeen <= a.lastSeen }

  // ----- what a summary must say -----

  /** The exchanges recorded on connection `cid`, in recording order. */
  function Members(sessions: seq<Exchange>, cid: string): seq<Exchange> {
    if sessions == [] then []
    else
      var last := sessions[|sessions| - 1];
      Members(sessions[..|sessions| - 1], cid) + if last.connectionId == Some(cid) then [last] else []
  }

  function CountIdentified(sessions: seq<Exchange>): nat {
    if sessions == [] then 0
    else CountIdentified(sessions[..|sessions| - 1]) + if sessions[|sessions| - 1].connectionId.Some? then 1 else 0
  }

  ghost predicate NoDuplicates<T>(s: seq<T>) {
    forall i, j :: 0 <= i < j < |s| ==> s[i] != s[j]
  }

  ghost function Intervals(ms: seq<Exchange>, first: int): seq<Sweep.Interval> {
    seq(|ms|, i requires 0 <= i < |ms| => IntervalOf(ms[i], first))
  }

  ghost predicate IsFirst(ms: seq<Exchange>, first: int) {
    (forall e :: e in ms ==> first <= e.timestamp) && (exists e :: e in ms && e.timestamp == first)
  }

  ghost predicate IsLast(ms: seq<Exchange>, last: int) {
    (forall e :: e in ms ==> LastActive(e) <= last) && (exists e :: e in ms && LastActive(e) == last)
  }

  ghost predicate IsSpan(ms: seq<Exchange>, first: int, last: int, span: int) {
    && Millis(last - first) <= span
    && (forall e :: e in ms ==> EndOffset(e, first) <= span)
    && (span == Millis(last - first) || exists e :: e in ms && EndOffset(e, first) == span)
  }

  ghost predicate AreHosts(ms: seq<Exchange>, hosts: seq<string>) {
    NoDuplicates(hosts) && forall h :: h in hosts <==> h != "" && exists e :: e in ms && e.host == h
  }

  function HostsOf(ms: seq<Exchange>): seq<string> {
    seq(|ms|, i requires 0 <= i < |ms| => ms[i].host)
  }

  ghost function Streams(ms: seq<Exchange>, first: int): seq<Stream> {
    seq(|ms|, i requires 0 <= i < |ms| => StreamOf(ms[i], first))
  }

  ghost function StreamIds(ms: seq<Exchange>): set<nat> {
    set e | e in ms && e.streamId.Some? :: e.streamId.value
  }

  /** The first recorded downstream protocol. */
  function FirstProtocol(ms: seq<Exchange>): Option<string> {
    if ms == [] then None
    else if ms[0].downstreamProtocol.Some? then ms[0].downstreamProtocol
    else FirstProtocol(ms[1..])
  }

  /** What a summary says of its connection; the streams are a stable reordering
      of the members by stream id. */
  ghost predicate Describes(c: Summary, members: seq<Exchange>) {
    var ordered := Sorting.Sort(StreamLeq, members);
    && c.exchangeCount == |members|
    && c.downstreamProtocol == FirstProtocol(ordered)
    && IsFirst(members, c.firstSeen) && IsLast(members, c.lastSeen)
    && c.streams == Streams(ordered, c.firstSeen)
    && c.streamCount == |StreamIds(members)|
    && AreHosts(members, c.hosts) && InOrderOfAppearance(HostsOf(ordered), c.hosts)
    && IsSpan(members, c.firstSeen, c.lastSeen, c.spanMs)
    && Sweep.IsPeak(Intervals(ordered, c.firstSeen), c.maxConcurrency)
  }

  // ----- consequences for the timeline -----

  lemma StreamLeqTotal()
    ensures Sorting.TotalPreorder(StreamLeq)
  {}

  lemma StreamFits(e: Exchange, first: int)
    requires first <= e.timestamp
    ensures StartOffset(e, first) >= 0
    ensures StartOffset(e, first) + Duration(e) < I64_LIMIT ==>
              EndOffset(e, first) == StartOffset(e, first) + Duration(e)
  {
    if StartOffset(e, first) + Duration(e) < I64_LIMIT {
      assert WrapI64(Duration(e)) == Duration(e);
    }
  }

  /** The timeline of a described connection: offsets are non-negative, the span
      covers the true end of every stream that fits in `i64`, and the peak is at
      most the number of exchanges. */
  lemma Timeline(c: Summary, members: seq<Exchange>)
    requires Describes(c, members)
    ensures |c.streams| == c.exchangeCount
    ensures forall s :: s in c.streams ==> s.startOffsetMs >= 0
    ensures forall s :: s in c.streams && s.startOffsetMs + s.durationMs < I64_LIMIT ==>
              s.startOffsetMs + s.durationMs <= c.spanMs
    ensures c.maxConcurrency <= c.exchangeCount
  {
    var ordered := Sorting.Sort(StreamLeq, members);
    forall s | s in c.streams
      ensures s.startOffsetMs >= 0
      ensures s.startOffsetMs + s.durationMs < I64_LIMIT ==> s.startOffsetMs + s.durationMs <= c.spanMs
    {
      var i :| 0 <= i < |ordered| && c.streams[i] == s;
      assert ordered[i] in multiset(ordered);
      StreamFits(ordered[i], c.firstSeen);
    }
    var t :| Sweep.InFlight(Intervals(ordered, c.firstSeen), t) == c.maxConcurrency;
  }

  /** Streams come in stream-id order, and streams of one id keep their
      recording order. */
  lemma StreamOrder(members: seq<Exchange>, e: Exchange)
    ensures Sorting.Sorted(StreamLeq, Sorting.Sort(StreamLeq, members))
    ensures Sorting.Class(StreamLeq, e, Sorting.Sort(StreamLeq, members)) == Sorting.Class(StreamLeq, e, members)
  {
    StreamLeqTotal();
    Sorting.SortSorted(StreamLeq, members);
    Sorting.SortStable(StreamLeq, e, members);
  }

  // ----- the aggregation -----

  lemma OneMore(ms: seq<Exchange>, e: Exchange, first: int, last: int)
    requires IsFirst(ms, first) && IsLast(ms, last)
    ensures IsFirst(ms + [e], if e.timestamp < first then e.timestamp else first)
    ensures IsLast(ms + [e], if last < LastActive(e) then LastActive(e) else last)
  {
    var all := ms + [e];
    assert all[|ms|] == e && forall m :: m in all <==> m in ms || m == e;
  }

  lemma OneAlone(e: Exchange)
    ensures IsFirst([e], e.timestamp) && IsLast([e], LastActive(e))
  {
    assert e in [e];
  }

  method FirstAndLast(members: seq<Exchange>) returns (first: int, last: int)
    requires members != []
    ensures IsFirst(members, first) && IsLast(members, last)
  {
    first, last := members[0].timestamp, LastActive(members[0]);
    OneAlone(members[0]);
    assert members[..1] == [members[0]];
    for i := 1 to |members|
      invariant IsFirst(members[..i], first) && IsLast(members[..i], last)
    {
      var e := members[i];
      OneMore(members[..i], e, first, last);
      assert members[..i] + [e] == members[..i + 1];
      if e.timestamp < first { first := e.timestamp; }
      if last < LastActive(e) { last := LastActive(e); }
    }
    assert members[..|members|] == members;
  }

  lemma NewHost(ms: seq<Exchange>, hosts: seq<string>, host: string)
    requires AreHosts(ms, hosts) && InOrderOfAppearance(HostsOf(ms), hosts) && host != "" && host !in hosts
    ensures InOrderOfAppearance(HostsOf(ms) + [host], hosts + [host])
  {
    assert forall i :: 0 <= i < |ms| ==> ms[i] in ms;
    AppearsLast(HostsOf(ms), hosts, host);
  }

  /** The distinct non-empty hosts, in order of appearance. */
  method CollectHosts(members: seq<Exchange>) returns (hosts: seq<string>)
    ensures AreHosts(members, hosts) && InOrderOfAppearance(HostsOf(members), hosts)
  {
    hosts := [];
    NothingAppears(HostsOf([]));
    for i := 0 to |members|
      invariant AreHosts(members[..i], hosts) && InOrderOfAppearance(HostsOf(members[..i]), hosts)
    {
      var host := members[i].host;
      assert members[..i + 1] == members[..i] + [members[i]];
      assert HostsOf(members[..i + 1]) == HostsOf(members[..i]) + [host];
      if host != "" && host !in hosts {
        NewHost(members[..i], hosts, host);
        hosts := hosts + [host];
      } else {
        AppearsStill(HostsOf(members[..i]), hosts, host);
      }
      assert members[i] in members[..i + 1];
    }
    assert members[..|members|] == members;
  }

  method CollectStreams(members: seq<Exchange>, first: int)
    returns (streams: seq<Stream>, intervals: seq<Sweep.Interval>, ids: set<nat>)
    ensures streams == Streams(members, first)
    ensures intervals == Intervals(members, first)
    ensures ids == StreamIds(members)
  {
    streams, intervals, ids := [], [], {};
    for i := 0 to |members|
      invariant streams == Streams(members[..i], first)
      invariant intervals == Intervals(members[..i], first)
      invariant ids == StreamIds(members[..i])
    {
      var e := members[i];
      assert members[..i + 1] == members[..i] + [e];
      if e.streamId.Some? { ids := ids + {e.streamId.value}; }
      streams := streams + [StreamOf(e, first)];
      intervals := intervals + [IntervalOf(e, first)];
    }
    assert members[..|members|] == members;
  }

  method Span(members: seq<Exchange>, first: int, last: int, intervals: seq<Sweep.Interval>) returns (span: int)
    requires intervals == Intervals(members, first)
    ensures IsSpan(members, first, last, span)
  {
    span := Millis(last - first);
    for i := 0 to |intervals|
      invariant IsSpan(members[..i], first, last, span)
    {
      assert members[..i + 1] == members[..i] + [members[i]];
      if span < intervals[i].1 { span := intervals[i].1; }
      assert members[i] in members[..i + 1];
    }
    assert members[..|members|] == members;
  }

  /** The summary depends on its members as a collection, apart from stream order. */
  lemma SameMembers(ordered: seq<Exchange>, members: seq<Exchange>)
    requires multiset(ordered) == multiset(members)
    ensures |ordered| == |members|
    ensures forall e :: e in ordered <==> e in members
    ensures StreamIds(ordered) == StreamIds(members)
    ensures forall hosts :: AreHosts(ordered, hosts) ==> AreHosts(members, hosts)
  {
    assert |multiset(ordered)| == |multiset(members)|;
    forall e
      ensures e in ordered <==> e in members
    {
      assert e in multiset(ordered) <==> e in multiset(members);
    }
  }

  /** One connection: the body of the loop over `order`. */
  method Summarize(cid: string, members: seq<Exchange>) returns (c: Summary)
    requires members != []
    ensures c.connectionId == cid && Describes(c, members)
  {
    var ordered := Sorting.Sort(StreamLeq, members);
    SameMembers(ordered, members);
    var first, last := FirstAndLast(ordered);
    var hosts := CollectHosts(ordered);
    var streams, intervals, ids := CollectStreams(ordered, first);
    var span := Span(ordered, first, last, intervals);
    var peak := Sweep.PeakConcurrency(intervals);
    c := Summary(cid, FirstProtocol(ordered), hosts, |ordered|, |ids|, first, last, span, peak, streams);
  }

  // ----- grouping -----

  /** Each connection id once, in order of first appearance. */
  function FirstSeenIds(sessions: seq<Exchange>): seq<string> {
    if sessions == [] then []
    else
      var ids := FirstSeenIds(sessions[..|sessions| - 1]);
      var cid := sessions[|sessions| - 1].connectionId;
      if cid.Some? && cid.value !in ids then ids + [cid.value] else ids
  }

  method Group(sessions: seq<Exchange>) returns (order: seq<string>, groups: map<string, seq<Exchange>>)
    ensures order == FirstSeenIds(sessions)
    ensures groups.Keys == set cid | cid in order
    ensures forall cid :: cid in groups ==> groups[cid] == Members(sessions, cid) != []
  {
    order, groups := [], map[];
    for i := 0 to |sessions|
      invariant order == FirstSeenIds(sessions[..i])
      invariant forall cid :: cid in groups <==> cid in order
      invariant forall cid :: cid in groups ==> groups[cid] != []
      invariant forall cid :: (if cid in groups then groups[cid] else []) == Members(sessions[..i], cid)
    {
      assert sessions[..i + 1][..i] == sessions[..i];
      var ex := sessions[i];
      if ex.connectionId.Some? {
        var cid := ex.connectionId.value;
        groups := groups[cid := (if cid in groups then groups[cid] else []) + [ex]];
        if cid !in order { order := order + [cid]; }
      }
    }
    assert sessions[..|sessions|] == sessions;
  }

  ghost predicate HasExchange(sessions: seq<Exchange>, cid: string) {
    exists e :: e in sessions && e.connectionId == Some(cid)
  }

  ghost predicate HasSummary(cs: seq<Summary>, cid: string) {
    exists c :: c in cs && c.connectionId == cid
  }

  lemma {:induction false} FirstSeenIdsComplete(sessions: seq<Exchange>)
    ensures NoDuplicates(FirstSeenIds(sessions))
    ensures forall cid :: cid in FirstSeenIds(sessions) <==> HasExchange(sessions, cid)
  {
    if sessions != [] {
      var n := |sessions| - 1;
      FirstSeenIdsComplete(sessions[..n]);
      assert sessions == sessions[..n] + [sessions[n]];
      assert sessions[n] in sessions;
    }
  }

  function MemberTotal(sessions: seq<Exchange>, ids: seq<string>): nat {
    if ids == [] then 0 else |Members(sessions, ids[0])| + MemberTotal(sessions, ids[1..])
  }

  lemma {:induction false} MemberTotalStep(sessions: seq<Exchange>, e: Exchange, ids: seq<string>)
    requires NoDuplicates(ids)
    ensures MemberTotal(sessions + [e], ids) ==
            MemberTotal(sessions, ids) + if e.connectionId.Some? && e.connectionId.value in ids then 1 else 0
  {
    assert (sessions + [e])[..|sessions|] == sessions;
    if ids != [] {
      MemberTotalStep(sessions, e, ids[1..]);
      assert ids == [ids[0]] + ids[1..];
      assert forall c :: c in ids[1..] ==> c != ids[0];
    }
  }

  lemma {:induction false} MemberTotalOf(sessions: seq<Exchange>, ids: seq<string>)
    requires NoDuplicates(ids) && forall e :: e in sessions && e.connectionId.Some? ==> e.connectionId.value in ids
    ensures MemberTotal(sessions, ids) == CountIdentified(sessions)
  {
    if sessions == [] {
      NoMembers(ids);
    } else {
      var n := |sessions| - 1;
      MemberTotalOf(sessions[..n], ids);
      MemberTotalStep(sessions[..n], sessions[n], ids);
      assert sessions == sessions[..n] + [sessions[n]];
      assert sessions[n] in sessions;
    }
  }

  lemma {:induction false} NoMembers(ids: seq<string>)
    ensures MemberTotal([], ids) == 0
  {
    if ids != [] { NoMembers(ids[1..]); }
  }

  function ExchangeTotal(cs: seq<Summary>): nat {
    if cs == [] then 0 else cs[0].exchangeCount + ExchangeTotal(cs[1..])
  }

  lemma {:induction false} ExchangeTotalAppend(a: seq<Summary>, b: seq<Summary>)
    ensures ExchangeTotal(a + b) == ExchangeTotal(a) + ExchangeTotal(b)
  {
    if a == [] { assert a + b == b; }
    else {
      ExchangeTotalAppend(a[1..], b);
      assert (a + b)[1..] == a[1..] + b;
    }
  }

  /** Taking out the summary at `k` takes its count out of the total. */
  lemma ExchangeTotalWithout(b: seq<Summary>, k: nat)
    requires k < |b|
    ensures ExchangeTotal(b) == b[k].exchangeCount + ExchangeTotal(b[..k] + b[k + 1..])
  {
    var tail := [b[k]] + b[k + 1..];
    Sorting.MultisetAround(b, k);
    assert tail[1..] == b[k + 1..];
    ExchangeTotalAppend(b[..k], b[k + 1..]);
    ExchangeTotalAppend(b[..k], tail);
  }

  lemma {:induction false} ExchangeTotalPermuted(a: seq<Summary>, b: seq<Summary>)
    requires multiset(a) == multiset(b)
    ensures ExchangeTotal(a) == ExchangeTotal(b)
  {
    if a == [] {
      assert |multiset(b)| == 0;
    } else {
      assert a[0] in multiset(b);
      var k :| 0 <= k < |b| && b[k] == a[0];
      Sorting.PermutedRest(a, b, k);
      ExchangeTotalPermuted(a[1..], b[..k] + b[k + 1..]);
      ExchangeTotalWithout(b, k);
    }
  }

  lemma {:induction false} ExchangeTotalOf(sessions: seq<Exchange>, cs: seq<Summary>, ids: seq<string>)
    requires |cs| == |ids|
    requires forall i :: 0 <= i < |ids| ==> cs[i].exchangeCount == |Members(sessions, ids[i])|
    ensures ExchangeTotal(cs) == MemberTotal(sessions, ids)
  {
    if ids != [] { ExchangeTotalOf(sessions, cs[1..], ids[1..]); }
  }

  lemma MoreRecentTotal()
    ensures Sorting.TotalPreorder(MoreRecent)
  {}

  /** The sorted list is a permutation, so what holds of each summary still does. */
  lemma SortedSummaries(cs: seq<Summary>, sorted: seq<Summary>)
    requires sorted == Sorting.Sort(MoreRecent, cs)
    requires NoDuplicates(cs)
    ensures forall c :: c in sorted <==> c in cs
    ensures NoDuplicates(sorted) && Sorting.Sorted(MoreRecent, sorted)
    ensures ExchangeTotal(sorted) == ExchangeTotal(cs)
  {
    MoreRecentTotal();
    Sorting.SortSorted(MoreRecent, cs);
    ExchangeTotalPermuted(sorted, cs);
    forall c ensures c in sorted <==> c in cs { assert c in multiset(sorted) <==> c in multiset(cs); }
    forall i, j | 0 <= i < j < |sorted|
      ensures sorted[i] != sorted[j]
    {
      if sorted[i] == sorted[j] {
        Sorting.Twice(sorted, i, j);
        var k :| 0 <= k < |cs| && cs[k] == sorted[i];
        Once(cs, k);
      }
    }
  }

  lemma Once<T>(s: seq<T>, k: nat)
    requires NoDuplicates(s) && k < |s|
    ensures multiset(s)[s[k]] == 1
  {
    assert s == s[..k] + ([s[k]] + s[k + 1..]);
    assert s[k] !in s[..k] && s[k] !in s[k + 1..];
  }

  ghost predicate Summarizes(sessions: seq<Exchange>, order: seq<string>, cs: seq<Summary>) {
    && |cs| == |order|
    && forall k :: 0 <= k < |cs| ==>
         cs[k].connectionId == order[k] && Describes(cs[k], Members(sessions, order[k]))
  }

  lemma SummarizesOneMore(sessions: seq<Exchange>, order: seq<string>, cs: seq<Summary>, cid: string, c: Summary)
    requires Summarizes(sessions, order, cs)
    requires c.connectionId == cid && Describes(c, Members(sessions, cid))
    ensures Summarizes(sessions, order + [cid], cs + [c])
  {}

  method SummarizeAll(sessions: seq<Exchange>, order: seq<string>, groups: map<string, seq<Exchange>>)
    returns (cs: seq<Summary>)
    requires forall cid :: cid in order ==> cid in groups && groups[cid] == Members(sessions, cid) != []
    ensures Summarizes(sessions, order, cs)
  {
    cs := [];
    for i := 0 to |order|
      invariant Summarizes(sessions, order[..i], cs)
    {
      var cid := order[i];
      assert cid in order;
      var c := Summarize(cid, groups[cid]);
      SummarizesOneMore(sessions, order[..i], cs, cid, c);
      assert order[..i + 1] == order[..i] + [cid];
      cs := cs + [c];
    }
    assert order[..|order|] == order;
  }

  ghost predicate EveryIdOnce(sessions: seq<Exchange>, cs: seq<Summary>) {
    && (forall cid :: HasSummary(cs, cid) <==> HasExchange(sessions, cid))
    && (forall i, j :: 0 <= i < j < |cs| ==> cs[i].connectionId != cs[j].connectionId)
  }

  ghost predicate EachDescribed(sessions: seq<Exchange>, cs: seq<Summary>) {
    forall c :: c in cs ==> Describes(c, Members(sessions, c.connectionId))
  }

  lemma SummaryTotals(sessions: seq<Exchange>, cs: seq<Summary>)
    requires Summarizes(sessions, FirstSeenIds(sessions), cs)
    ensures ExchangeTotal(cs) == CountIdentified(sessions)
  {
    var order := FirstSeenIds(sessions);
    FirstSeenIdsComplete(sessions);
    ExchangeTotalOf(sessions, cs, order);
    forall e | e in sessions && e.connectionId.Some?
      ensures e.connectionId.value in order
    {
      assert HasExchange(sessions, e.connectionId.value);
    }
    MemberTotalOf(sessions, order);
  }

  lemma SummaryIdentity(sessions: seq<Exchange>, order: seq<string>, cs: seq<Summary>)
    requires Summarizes(sessions, order, cs) && NoDuplicates(order)
    ensures NoDuplicates(cs)
    ensures forall k :: 0 <= k < |cs| ==> cs[k].connectionId == order[k]
  {
    forall i, j | 0 <= i < j < |cs| ensures cs[i] != cs[j] {
      assert cs[i].connectionId == order[i] && cs[j].connectionId == order[j];
    }
  }

  lemma SortedEveryIdOnce(sessions: seq<Exchange>, cs: seq<Summary>, sorted: seq<Summary>)
    requires Summarizes(sessions, FirstSeenIds(sessions), cs)
    requires sorted == Sorting.Sort(MoreRecent, cs)
    ensures EveryIdOnce(sessions, sorted) && Sorting.Sorted(MoreRecent, sorted)
    ensures ExchangeTotal(sorted) == ExchangeTotal(cs)
  {
    var order := FirstSeenIds(sessions);
    FirstSeenIdsComplete(sessions);
    SummaryIdentity(sessions, order, cs);
    SortedSummaries(cs, sorted);
    ByIdentity(order, cs, sorted);
  }

  lemma SortedEachDescribed(sessions: seq<Exchange>, order: seq<string>, cs: seq<Summary>, sorted: seq<Summary>)
    requires Summarizes(sessions, order, cs)
    requires sorted == Sorting.Sort(MoreRecent, cs)
    ensures EachDescribed(sessions, sorted)
  {
    forall c | c in sorted
      ensures Describes(c, Members(sessions, c.connectionId))
    {
      assert c in multiset(sorted);
      var k :| 0 <= k < |cs| && cs[k] == c;
    }
  }

  /** The summaries in order of first appearance, sorted by recency; those of one recency
      stay in that order. */
  ghost predicate RecentFirst(sessions: seq<Exchange>, connections: seq<Summary>) {
    && Sorting.Sorted(MoreRecent, connections)
    && exists cs ::
         && Summarizes(sessions, FirstSeenIds(sessions), cs) && multiset(connections) == multiset(cs)
         && forall c :: Sorting.Class(MoreRecent, c, connections) == Sorting.Class(MoreRecent, c, cs)
  }

  lemma RecencyIsLastSeen(connections: seq<Summary>)
    requires Sorting.Sorted(MoreRecent, connections)
    ensures forall i, j :: 0 <= i < j < |connections| ==> connections[i].lastSeen >= connections[j].lastSeen
  {
    forall i, j | 0 <= i < j < |connections| ensures connections[i].lastSeen >= connections[j].lastSeen {
      assert MoreRecent(connections[i], connections[j]);
    }
  }

  lemma SortedRecentFirst(sessions: seq<Exchange>, cs: seq<Summary>)
    requires Summarizes(sessions, FirstSeenIds(sessions), cs)
    ensures RecentFirst(sessions, Sorting.Sort(MoreRecent, cs))
  {
    MoreRecentTotal();
    Sorting.SortSorted(MoreRecent, cs);
    forall c ensures Sorting.Class(MoreRecent, c, Sorting.Sort(MoreRecent, cs)) == Sorting.Class(MoreRecent, c, cs) {
      Sorting.SortStable(MoreRecent, c, cs);
    }
  }

  /** `aggregate_connections`: every connection id once, each summary describing
      exactly that connection's exchanges, no exchange counted twice or lost, and
      the most recently active connection first. */
  method AggregateConnections(sessions: seq<Exchange>) returns (connections: seq<Summary>)
    ensures EveryIdOnce(sessions, connections)
    ensures EachDescribed(sessions, connections)
    ensures ExchangeTotal(connections) == CountIdentified(sessions)
    ensures RecentFirst(sessions, connections)
    ensures forall i, j :: 0 <= i < j < |connections| ==> connections[i].lastSeen >= connections[j].lastSeen
  {
    var order, groups := Group(sessions);
    var cs := SummarizeAll(sessions, order, groups);
    connections := Sorting.Sort(MoreRecent, cs);
    SummaryTotals(sessions, cs);
    SortedEveryIdOnce(sessions, cs, connections);
    SortedEachDescribed(sessions, order, cs, connections);
    SortedRecentFirst(sessions, cs);
    RecencyIsLastSeen(connections);
  }

  lemma ByIdentity(order: seq<string>, cs: seq<Summary>, sorted: seq<Summary>)
    requires NoDuplicates(order) && |cs| == |order|
    requires forall k :: 0 <= k < |cs| ==> cs[k].connectionId == order[k]
    requires forall c :: c in sorted <==> c in cs
    requires NoDuplicates(sorted)
    ensures forall cid :: HasSummary(sorted, cid) <==> cid in order
    ensures forall i, j :: 0 <= i < j < |sorted| ==> sorted[i].connectionId != sorted[j].connectionId
  {
    forall cid
      ensures HasSummary(sorted, cid) <==> cid in order
    {
      if cid in order {
        var k :| 0 <= k < |order| && order[k] == cid;
        assert cs[k] in sorted;
      }
    }
    forall i, j | 0 <= i < j < |sorted|
      ensures sorted[i].connectionId != sorted[j].connectionId
    {
      assert sorted[i] in cs && sorted[j] in cs;
      var a :| 0 <= a < |cs| && cs[a] == sorted[i];
      var b :| 0 <= b < |cs| && cs[b] == sorted[j];
    }
  }
}
