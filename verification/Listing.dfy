/** The session listing: filters, facets, order and pages (src/api/mod.rs). */
module Listing {
  import opened Options
  import opened Text
  import Canonical
  import Sorting

  type Bytes = seq<bv8>

  datatype Response = Response(status: nat, body: Bytes)
  datatype Metrics = Metrics(requestSize: nat, latency: nat, protocol: Option<string>)
  datatype Frame = Frame(opcode: string, text: Option<string>, hex: Option<string>)

  datatype Session = Session(
    id: string, timestamp: int, updated: Option<int>,
    verb: string, uri: string, host: string, body: Bytes,
    response: Option<Response>, metrics: Option<Metrics>,
    graphql: bool, grpc: bool, frames: seq<Frame>)

  datatype Filter = Filter(
    query: string, regex: bool,
    verbs: Option<seq<string>>, buckets: Option<seq<string>>,
    hostFocus: seq<string>, host: Option<string>)

  datatype Direction = Asc | Desc
  datatype Order = Order(key: string, direction: Direction)

  datatype ListOptions = ListOptions(
    since: Option<int>, limit: Option<nat>, offset: Option<nat>, includeBodies: bool,
    filter: Filter, order: Order)

  datatype Facets = Facets(verbs: map<string, nat>, buckets: map<string, nat>, hosts: map<string, nat>)

  datatype Listing = Listing(sessions: seq<Session>, total: nat, filteredTotal: nat, facets: Facets)

  /** Whether a session matches a trimmed, non-empty query, read as a regular
      expression or as search terms. */
  type Search = (string, bool, Session) -> bool

  // ----- filters -----

  function Status(s: Session): nat { if s.response.Some? then s.response.value.status else 0 }

  function Bucket(s: Session): string {
    var n := Status(s);
    if 100 <= n <= 199 then "1"
    else if 200 <= n <= 299 then "2"
    else if 300 <= n <= 399 then "3"
    else if 400 <= n <= 499 then "4"
    else if 500 <= n <= 599 then "5"
    else "-"
  }

  function Verb(s: Session): string { Upper(s.verb) }

  function Host(s: Session): string { s.host }

  predicate IsRecent(s: Session, since: Option<int>) {
    || since.None?
    || s.timestamp > since.value
    || s.response.None?
    || (s.updated.Some? && s.updated.value > since.value)
  }

  predicate InFocus(host: string, focus: string) {
    host == focus || EndsWith(host, "." + focus)
  }

  predicate Matches(s: Session, f: Filter, search: Search) {
    && (f.verbs.Some? ==> exists v :: v in f.verbs.value && Lower(s.verb) == Lower(v))
    && (f.buckets.Some? ==> Bucket(s) in f.buckets.value)
    && (f.host.Some? && f.host.value != "" ==> Lower(s.host) == Lower(f.host.value))
    && (f.hostFocus != [] ==> exists h :: h in f.hostFocus && InFocus(Lower(s.host), h))
    && (Trim(f.query) != "" ==> search(Trim(f.query), f.regex, s))
  }

  predicate Passes(s: Session, opts: ListOptions, search: Search) {
    IsRecent(s, opts.since) && Matches(s, opts.filter, search)
  }

  function Passing(all: seq<Session>, opts: ListOptions, search: Search): seq<Session> {
    if all == [] then []
    else (if Passes(all[0], opts, search) then [all[0]] else []) + Passing(all[1..], opts, search)
  }

  // ----- order -----

  datatype Key = Number(n: int) | Words(s: string)

  predicate KeyLeq(a: Key, b: Key) {
    match (a, b)
    case (Number(x), Number(y)) => x <= y
    case (Words(x), Words(y)) => !Canonical.Less(y, x)
    case (x, _) => x.Number?
  }

  function AfterFirst(s: string, pattern: string): Option<string> {
    if |s| < |pattern| then None
    else if s[..|pattern|] == pattern then Some(s[|pattern|..])
    else if s == "" then None
    else AfterFirst(s[1..], pattern)
  }

  function Path(s: Session): string {
    var rest := AfterFirst(s.uri, "://");
    var path := if rest.Some? && '/' in rest.value then FromSlash(rest.value) else s.uri;
    Split(path, '?')[0]
  }

  function FromSlash(s: string): string {
    if s == "" || s[0] == '/' then s else FromSlash(s[1..])
  }

  function Kind(s: Session): string {
    if s.graphql then "graphql" else if s.grpc then "grpc" else if s.response.Some? then "http" else "pending"
  }

  /** What a session is sorted by; an unknown key sorts by time. */
  function SortKey(key: string, s: Session): Key {
    if key == "method" then Words(Upper(s.verb))
    else if key == "status" then Number(Status(s))
    else if key == "host" then Words(Lower(s.host))
    else if key == "path" then Words(Path(s))
    else if key == "type" then Words(Kind(s))
    else if key == "reqSize" then Number(if s.metrics.Some? then s.metrics.value.requestSize else |s.body|)
    else if key == "total" then Number(if s.metrics.Some? then s.metrics.value.latency else 0)
    else if key == "protocol" then
      Words(if s.metrics.Some? && s.metrics.value.protocol.Some? then s.metrics.value.protocol.value else "")
    else Number(s.timestamp)
  }

  function ByKey(key: string): (Session, Session) -> bool {
    (a, b) => KeyLeq(SortKey(key, a), SortKey(key, b))
  }

  function Reversed<T>(s: seq<T>): (r: seq<T>)
    ensures multiset(r) == multiset(s)
    ensures |r| == |s|
  {
    if s == [] then []
    else
      assert s == [s[0]] + s[1..];
      Reversed(s[1..]) + [s[0]]
  }

  /** `sort_sessions` */
  function Ordered(order: Order, sessions: seq<Session>): seq<Session> {
    var sorted := Sorting.Sort(ByKey(order.key), sessions);
    if order.direction == Desc then Reversed(sorted) else sorted
  }

  // ----- pages -----

  /** `skip(offset)` and `take(limit)` */
  function Page<T>(s: seq<T>, offset: nat, limit: Option<nat>): seq<T> {
    var rest := if offset <= |s| then s[offset..] else [];
    if limit.Some? && limit.value < |rest| then rest[..limit.value] else rest
  }

  function Bare(f: Frame): Frame { f.(text := None, hex := None) }

  function WithoutBodies(s: Session): Session {
    s.(body := [],
       response := if s.response.Some? then Some(s.response.value.(body := [])) else None,
       frames := seq(|s.frames|, i requires 0 <= i < |s.frames| => Bare(s.frames[i])))
  }

  /** What a listing shows of a session. */
  function Shown(opts: ListOptions, s: Session): Session { if opts.includeBodies then s else WithoutBodies(s) }

  function ShowAll(opts: ListOptions, s: seq<Session>): (r: seq<Session>)
    ensures |r| == |s|
  {
    seq(|s|, i requires 0 <= i < |s| => Shown(opts, s[i]))
  }

  function Sessions(all: seq<Session>, opts: ListOptions, search: Search): seq<Session> {
    var offset := if opts.offset.Some? then opts.offset.value else 0;
    ShowAll(opts, Page(Ordered(opts.order, Passing(all, opts, search)), offset, opts.limit))
  }

  // ----- facets -----

  function Bump(m: map<string, nat>, key: string): map<string, nat> {
    m[key := (if key in m then m[key] else 0) + 1]
  }

  /** How many sessions carry each value of `field`. */
  function Facet(field: Session -> string, sessions: seq<Session>): map<string, nat> {
    if sessions == [] then map[]
    else
      var n := |sessions| - 1;
      Bump(Facet(field, sessions[..n]), field(sessions[n]))
  }

  /** `build_facets` */
  method BuildFacets(sessions: seq<Session>) returns (facets: Facets)
    ensures facets == Facets(Facet(Verb, sessions), Facet(Bucket, sessions), Facet(Host, sessions))
  {
    facets := Facets(map[], map[], map[]);
    for i := 0 to |sessions|
      invariant facets == Facets(Facet(Verb, sessions[..i]), Facet(Bucket, sessions[..i]), Facet(Host, sessions[..i]))
    {
      assert sessions[..i + 1][..i] == sessions[..i];
      var s := sessions[i];
      facets := facets.(verbs := Bump(facets.verbs, Upper(s.verb)));
      facets := facets.(buckets := Bump(facets.buckets, Bucket(s)));
      facets := facets.(hosts := Bump(facets.hosts, s.host));
    }
    assert sessions[..|sessions|] == sessions;
  }

  /** `list_sessions` on a snapshot of the sessions. */
  method ListSessions(all: seq<Session>, opts: ListOptions, search: Search) returns (listing: Listing)
    ensures listing.sessions == Sessions(all, opts, search)
    ensures listing.total == |all|
    ensures listing.filteredTotal == |Passing(all, opts, search)|
    ensures listing.facets == FacetsOf(Passing(all, opts, search))
    ensures Total(listing.facets.verbs) == listing.filteredTotal
    ensures Total(listing.facets.buckets) == listing.filteredTotal
    ensures Total(listing.facets.hosts) == listing.filteredTotal
  {
    var sessions := Passing(all, opts, search);
    var facets := BuildFacets(sessions);
    FacetTotal(Verb, sessions);
    FacetTotal(Bucket, sessions);
    FacetTotal(Host, sessions);
    var filteredTotal := |sessions|;
    sessions := Ordered(opts.order, sessions);
    var page := Page(sessions, if opts.offset.Some? then opts.offset.value else 0, opts.limit);
    listing := Listing(ShowAll(opts, page), |all|, filteredTotal, facets);
  }

  function FacetsOf(sessions: seq<Session>): Facets {
    Facets(Facet(Verb, sessions), Facet(Bucket, sessions), Facet(Host, sessions))
  }

  // ----- the filter keeps exactly the passing sessions -----

  lemma {:induction false} PassingExactly(all: seq<Session>, opts: ListOptions, search: Search, s: Session)
    ensures multiset(Passing(all, opts, search))[s] == if Passes(s, opts, search) then multiset(all)[s] else 0
  {
    if all != [] {
      PassingExactly(all[1..], opts, search, s);
      assert all == [all[0]] + all[1..];
    }
  }

  // ----- the order -----

  lemma KeyLeqTotal(a: Key, b: Key)
    ensures KeyLeq(a, b) || KeyLeq(b, a)
  {
    if a.Words? && b.Words? { Canonical.LessTotal(a.s, b.s); }
  }

  lemma KeyLeqTransitive(a: Key, b: Key, c: Key)
    requires KeyLeq(a, b) && KeyLeq(b, c)
    ensures KeyLeq(a, c)
  {
    if a.Words? && b.Words? && c.Words? && Canonical.Less(c.s, a.s) {
      Canonical.LessTotal(a.s, b.s);
      Canonical.LessTotal(b.s, c.s);
      Canonical.LessTotal(a.s, c.s);
      if a.s != b.s && b.s != c.s { Canonical.LessTransitive(a.s, b.s, c.s); }
    }
  }

  lemma ByKeyTotal(key: string)
    ensures Sorting.TotalPreorder(ByKey(key))
  {
    var leq := ByKey(key);
    forall x, y ensures leq(x, y) || leq(y, x) { KeyLeqTotal(SortKey(key, x), SortKey(key, y)); }
    forall x, y, z | leq(x, y) && leq(y, z) ensures leq(x, z) {
      KeyLeqTransitive(SortKey(key, x), SortKey(key, y), SortKey(key, z));
    }
  }

  lemma {:induction false} ReversedAt<T>(s: seq<T>, k: nat)
    requires k < |s|
    ensures Reversed(s)[k] == s[|s| - 1 - k]
  {
    if k < |s| - 1 { ReversedAt(s[1..], k); }
  }

  ghost predicate InOrder(order: Order, s: seq<Session>) {
    forall i, j :: 0 <= i < j < |s| ==>
      if order.direction == Asc then KeyLeq(SortKey(order.key, s[i]), SortKey(order.key, s[j]))
      else KeyLeq(SortKey(order.key, s[j]), SortKey(order.key, s[i]))
  }

  /** Sorting permutes the sessions into the requested order. */
  lemma OrderedIsSortedPermutation(order: Order, sessions: seq<Session>)
    ensures multiset(Ordered(order, sessions)) == multiset(sessions)
    ensures InOrder(order, Ordered(order, sessions))
  {
    var leq, r := ByKey(order.key), Ordered(order, sessions);
    var sorted := Sorting.Sort(leq, sessions);
    ByKeyTotal(order.key);
    Sorting.SortSorted(leq, sessions);
    forall i, j | 0 <= i < j < |r|
      ensures if order.direction == Asc then leq(r[i], r[j]) else leq(r[j], r[i])
    {
      if order.direction == Desc {
        ReversedAt(sorted, i);
        ReversedAt(sorted, j);
      }
    }
  }

  lemma ClassFirst(leq: (Session, Session) -> bool, c: Session, s: seq<Session>)
    requires s != []
    ensures Sorting.Class(leq, c, s) ==
            (if leq(c, s[0]) && leq(s[0], c) then [s[0]] else []) + Sorting.Class(leq, c, s[1..])
  {}

  lemma {:induction false} ClassAppend(leq: (Session, Session) -> bool, c: Session, s: seq<Session>, x: Session)
    ensures Sorting.Class(leq, c, s + [x]) ==
            Sorting.Class(leq, c, s) + if leq(c, x) && leq(x, c) then [x] else []
  {
    var all := s + [x];
    ClassFirst(leq, c, all);
    if s == [] {
      assert all[0] == x && all[1..] == [];
    } else {
      ClassAppend(leq, c, s[1..], x);
      ClassFirst(leq, c, s);
      assert all[0] == s[0] && all[1..] == s[1..] + [x];
    }
  }

  lemma {:induction false} ClassReversed(leq: (Session, Session) -> bool, c: Session, s: seq<Session>)
    ensures Sorting.Class(leq, c, Reversed(s)) == Reversed(Sorting.Class(leq, c, s))
  {
    if s != [] {
      ClassReversed(leq, c, s[1..]);
      ClassAppend(leq, c, Reversed(s[1..]), s[0]);
      var rest := Sorting.Class(leq, c, s[1..]);
      assert ([s[0]] + rest)[1..] == rest;
    }
  }

  /** Sessions with one key keep their recording order, or its reverse when descending. */
  lemma TiesKeepOrder(order: Order, sessions: seq<Session>, c: Session)
    ensures var ties := Sorting.Class(ByKey(order.key), c, sessions);
            Sorting.Class(ByKey(order.key), c, Ordered(order, sessions)) ==
            if order.direction == Desc then Reversed(ties) else ties
  {
    var leq := ByKey(order.key);
    ByKeyTotal(order.key);
    Sorting.SortStable(leq, c, sessions);
    ClassReversed(leq, c, Sorting.Sort(leq, sessions));
  }

  // ----- pages join into the whole -----

  function PageOf(opts: ListOptions, size: nat, k: nat): ListOptions {
    opts.(offset := Some(k * size), limit := Some(size))
  }

  /** The first `n` pages of `size` sessions, one after the other. */
  function Pages(all: seq<Session>, opts: ListOptions, search: Search, size: nat, n: nat): seq<Session>
    decreases n
  {
    if n == 0 then []
    else Pages(all, opts, search, size, n - 1) + Sessions(all, PageOf(opts, size, n - 1), search)
  }

  lemma {:induction false} PassingIgnoresPaging(all: seq<Session>, opts: ListOptions, other: ListOptions,
                                                search: Search)
    requires opts.since == other.since && opts.filter == other.filter
    ensures Passing(all, opts, search) == Passing(all, other, search)
  {
    if all != [] { PassingIgnoresPaging(all[1..], opts, other, search); }
  }

  lemma NextPage<T>(s: seq<T>, at: nat, size: nat)
    ensures Page(s, 0, Some(at)) + Page(s, at, Some(size)) == Page(s, 0, Some(at + size))
  {}

  lemma Times(n: nat, size: nat)
    ensures n * size == if n == 0 then 0 else (n - 1) * size + size
  {}

  lemma ShowAllJoins(opts: ListOptions, a: seq<Session>, b: seq<Session>)
    ensures ShowAll(opts, a + b) == ShowAll(opts, a) + ShowAll(opts, b)
  {}

  lemma OnePage(all: seq<Session>, opts: ListOptions, search: Search, size: nat, k: nat)
    ensures Sessions(all, PageOf(opts, size, k), search) ==
            ShowAll(opts, Page(Ordered(opts.order, Passing(all, opts, search)), k * size, Some(size)))
  {
    PassingIgnoresPaging(all, opts, PageOf(opts, size, k), search);
  }

  function Cut<T>(s: seq<T>, size: nat, n: nat): seq<T>
    decreases n
  {
    if n == 0 then [] else Cut(s, size, n - 1) + Page(s, (n - 1) * size, Some(size))
  }

  lemma {:induction false} CutIsPrefix<T>(s: seq<T>, size: nat, n: nat)
    ensures Cut(s, size, n) == Page(s, 0, Some(n * size))
  {
    Times(n, size);
    if n > 0 {
      CutIsPrefix(s, size, n - 1);
      NextPage(s, (n - 1) * size, size);
    }
  }

  lemma NextCut<T>(s: seq<T>, size: nat, n: nat)
    ensures Cut(s, size, n + 1) == Cut(s, size, n) + Page(s, n * size, Some(size))
  {}

  lemma {:induction false} PagesAreCuts(all: seq<Session>, opts: ListOptions, search: Search, size: nat, n: nat)
    ensures Pages(all, opts, search, size, n) ==
            ShowAll(opts, Cut(Ordered(opts.order, Passing(all, opts, search)), size, n))
  {
    var whole := Ordered(opts.order, Passing(all, opts, search));
    if n > 0 {
      var k: nat := n - 1;
      PagesAreCuts(all, opts, search, size, k);
      OnePage(all, opts, search, size, k);
      ShowAllJoins(opts, Cut(whole, size, k), Page(whole, k * size, Some(size)));
      NextCut(whole, size, k);
      assert k + 1 == n;
    }
  }

  /** Enough pages of any size, joined, are the unpaged listing. */
  lemma PagesJoinToWhole(all: seq<Session>, opts: ListOptions, search: Search, size: nat, n: nat)
    requires n * size >= |Passing(all, opts, search)|
    ensures Pages(all, opts, search, size, n) == Sessions(all, opts.(offset := None, limit := None), search)
  {
    var unpaged := opts.(offset := None, limit := None);
    PagesAreCuts(all, opts, search, size, n);
    CutIsPrefix(Ordered(opts.order, Passing(all, opts, search)), size, n);
    PassingIgnoresPaging(all, opts, unpaged, search);
    OrderedIsSortedPermutation(opts.order, Passing(all, opts, search));
  }

  // ----- facets -----

  function Count(field: Session -> string, sessions: seq<Session>, value: string): nat {
    if sessions == [] then 0
    else
      var n := |sessions| - 1;
      Count(field, sessions[..n], value) + if field(sessions[n]) == value then 1 else 0
  }

  /** A facet lists exactly the values that occur, each with its number of sessions. */
  lemma {:induction false} FacetCounts(field: Session -> string, sessions: seq<Session>, value: string)
    ensures value in Facet(field, sessions) <==> Count(field, sessions, value) > 0
    ensures value in Facet(field, sessions) ==> Facet(field, sessions)[value] == Count(field, sessions, value)
  {
    if sessions != [] { FacetCounts(field, sessions[..|sessions| - 1], value); }
  }

  ghost function Total(m: map<string, nat>): nat {
    if m == map[] then 0
    else
      var k :| k in m;
      m[k] + Total(m - {k})
  }

  /** The total can be taken in any order. */
  lemma {:induction false} TotalPick(m: map<string, nat>, k: string)
    requires k in m
    ensures Total(m) == m[k] + Total(m - {k})
    decreases |m|
  {
    var first :| first in m && Total(m) == m[first] + Total(m - {first});
    if first != k {
      TotalPick(m - {first}, k);
      TotalPick(m - {k}, first);
      assert m - {first} - {k} == m - {k} - {first};
    }
  }

  lemma TotalBump(m: map<string, nat>, key: string)
    ensures Total(Bump(m, key)) == Total(m) + 1
  {
    var b := Bump(m, key);
    TotalPick(b, key);
    if key in m {
      TotalPick(m, key);
      assert b - {key} == m - {key};
    } else {
      assert b - {key} == m;
    }
  }

  /** Every facet sums to the number of sessions listed. */
  lemma {:induction false} FacetTotal(field: Session -> string, sessions: seq<Session>)
    ensures Total(Facet(field, sessions)) == |sessions|
  {
    if sessions != [] {
      var n := |sessions| - 1;
      FacetTotal(field, sessions[..n]);
      TotalBump(Facet(field, sessions[..n]), field(sessions[n]));
    }
  }

  // ----- what a facet promises about the next filter -----

  lemma {:induction false} CountFront(field: Session -> string, s: Session, rest: seq<Session>, value: string)
    ensures Count(field, [s] + rest, value) == (if field(s) == value then 1 else 0) + Count(field, rest, value)
  {
    var all := [s] + rest;
    if rest == [] {
      assert all[..0] == [];
    } else {
      var n := |rest| - 1;
      CountFront(field, s, rest[..n], value);
      assert all[..|all| - 1] == [s] + rest[..n];
    }
  }

  /** Narrowing by one more test keeps as many sessions as the facet counts, when the
      test is to have the facet's value. */
  lemma {:induction false} NarrowedCount(all: seq<Session>, opts: ListOptions, narrow: ListOptions, search: Search,
                                         field: Session -> string, value: string)
    requires forall s :: Passes(s, narrow, search) <==> Passes(s, opts, search) && field(s) == value
    ensures |Passing(all, narrow, search)| == Count(field, Passing(all, opts, search), value)
  {
    if all != [] {
      var rest := Passing(all[1..], opts, search);
      NarrowedCount(all[1..], opts, narrow, search, field, value);
      CountFront(field, all[0], rest, value);
      assert [] + rest == rest;
    }
  }

  function OnlyBucket(opts: ListOptions, bucket: string): ListOptions {
    opts.(filter := opts.filter.(buckets := Some([bucket])))
  }

  function OnlyVerb(opts: ListOptions, verb: string): ListOptions {
    opts.(filter := opts.filter.(verbs := Some([verb])))
  }

  function OnlyHost(opts: ListOptions, host: string): ListOptions {
    opts.(filter := opts.filter.(host := Some(host)))
  }

  /** A status count is the number of sessions listed after choosing that bucket. */
  lemma BucketFacetPredictsFilter(all: seq<Session>, opts: ListOptions, search: Search, bucket: string)
    requires opts.filter.buckets.None?
    ensures |Passing(all, OnlyBucket(opts, bucket), search)| == Count(Bucket, Passing(all, opts, search), bucket)
  {
    NarrowedCount(all, opts, OnlyBucket(opts, bucket), search, Bucket, bucket);
  }

  lemma CaseFolds(a: string, b: string)
    ensures Upper(a) == Upper(b) <==> Lower(a) == Lower(b)
  {
    if |a| == |b| {
      forall i | 0 <= i < |a| ensures UpperChar(a[i]) == UpperChar(b[i]) <==> LowerChar(a[i]) == LowerChar(b[i]) {}
      if Upper(a) == Upper(b) {
        forall i | 0 <= i < |a| ensures Lower(a)[i] == Lower(b)[i] {
          assert Upper(a)[i] == Upper(b)[i];
        }
      }
      if Lower(a) == Lower(b) {
        forall i | 0 <= i < |a| ensures Upper(a)[i] == Upper(b)[i] {
          assert Lower(a)[i] == Lower(b)[i];
        }
      }
    } else {
      assert |Upper(a)| != |Upper(b)| && |Lower(a)| != |Lower(b)|;
    }
  }

  /** A method count is the number of sessions listed after choosing that method. */
  lemma VerbFacetPredictsFilter(all: seq<Session>, opts: ListOptions, search: Search, verb: string)
    requires opts.filter.verbs.None? && Upper(verb) == verb
    ensures |Passing(all, OnlyVerb(opts, verb), search)| == Count(Verb, Passing(all, opts, search), verb)
  {
    var narrow := OnlyVerb(opts, verb);
    assert narrow.filter.verbs.value == [verb];
    forall s ensures Passes(s, narrow, search) <==> Passes(s, opts, search) && Verb(s) == verb {
      CaseFolds(s.verb, verb);
      assert verb in [verb];
    }
    NarrowedCount(all, opts, narrow, search, Verb, verb);
  }

  /** Host facets keep the spelling and the host filter ignores case, so the filter
      lists the counted sessions exactly when no other spelling of the host passes. */
  lemma HostFacetPredictsFilter(all: seq<Session>, opts: ListOptions, search: Search, host: string)
    requires opts.filter.host.None? && host != ""
    ensures |Passing(all, OnlyHost(opts, host), search)| == Count(Host, Passing(all, opts, search), host) <==>
            !exists s :: s in Passing(all, opts, search) && Lower(s.host) == Lower(host) && s.host != host
  {
    HostCounts(all, opts, search, host);
    SpelledOtherwise(Passing(all, opts, search), host);
  }

  function Folded(s: Session): string { Lower(s.host) }

  lemma HostCounts(all: seq<Session>, opts: ListOptions, search: Search, host: string)
    requires opts.filter.host.None? && host != ""
    ensures |Passing(all, OnlyHost(opts, host), search)| == Count(Folded, Passing(all, opts, search), Lower(host))
  {
    NarrowedCount(all, opts, OnlyHost(opts, host), search, Folded, Lower(host));
  }

  lemma {:induction false} SpelledOtherwise(sessions: seq<Session>, host: string)
    ensures Count(Folded, sessions, Lower(host)) >= Count(Host, sessions, host)
    ensures Count(Folded, sessions, Lower(host)) == Count(Host, sessions, host) <==>
            !exists s :: s in sessions && Lower(s.host) == Lower(host) && s.host != host
  {
    if sessions != [] {
      var n := |sessions| - 1;
      SpelledOtherwise(sessions[..n], host);
      assert sessions == sessions[..n] + [sessions[n]];
    }
  }
}
