/** What the filters, the sort keys and the bodiless listing of sessions mean
    (src/api/mod.rs). */
module ListingMeaning {
  import opened Options
  import opened Text
  import opened Listing
  import opened Selections
  import Canonical

  // ----- the filters -----

  /** The moments at which something was recorded of a session. */
  function Moments(s: Session): set<int> { {s.timestamp} + if s.updated.Some? then {s.updated.value} else {} }

  /** A client that asks again gets what was recorded since, and whatever still waits. */
  lemma RecentExactly(s: Session, since: Option<int>)
    ensures IsRecent(s, since) <==>
            since.None? || s.response.None? || exists t :: t in Moments(s) && t > since.value
  {
    if since.Some? {
      assert s.timestamp in Moments(s);
      if s.updated.Some? { assert s.updated.value in Moments(s); }
    }
  }

  /** The status code, and the hundred it lies in. */
  ghost predicate InBucket(s: Session, bucket: string) {
    var code := if s.response.Some? then s.response.value.status else 0;
    if exists n :: 1 <= n <= 5 && 100 * n <= code < 100 * (n + 1) then
      exists n :: 1 <= n <= 5 && 100 * n <= code < 100 * (n + 1) && bucket == [['0', '1', '2', '3', '4', '5'][n]]
    else bucket == "-"
  }

  lemma BucketExactly(s: Session, bucket: string)
    ensures bucket == Bucket(s) <==> InBucket(s, bucket)
  {
    var code := if s.response.Some? then s.response.value.status else 0;
    var digits := ['0', '1', '2', '3', '4', '5'];
    assert [digits[1]] == "1" && [digits[2]] == "2" && [digits[3]] == "3" && [digits[4]] == "4" && [digits[5]] == "5";
    forall n | 1 <= n <= 5 && 100 * n <= code < 100 * (n + 1) ensures Bucket(s) == [digits[n]] {}
    if Bucket(s) != "-" {
      var n := code / 100;
      assert 1 <= n <= 5 && 100 * n <= code < 100 * (n + 1);
    }
  }

  /** The host itself or any host below it. */
  ghost predicate Below(host: string, focus: string) {
    host == focus || exists sub :: host == sub + "." + focus
  }

  lemma FocusExactly(host: string, focus: string)
    ensures InFocus(host, focus) <==> Below(host, focus)
  {
    var dotted := "." + focus;
    if EndsWith(host, dotted) { assert host == host[..|host| - |dotted|] + "." + focus; }
    if sub :| host == sub + "." + focus { assert host == sub + dotted && host[|sub|..] == dotted; }
  }

  /** Each filter that is set must be met. */
  ghost predicate Meets(s: Session, f: Filter, search: Search) {
    && (f.verbs.Some? ==> exists v :: v in f.verbs.value && SameLetters(s.verb, v))
    && (f.buckets.Some? ==> exists b :: b in f.buckets.value && InBucket(s, b))
    && (f.host.Some? && f.host.value != "" ==> SameLetters(s.host, f.host.value))
    && (f.hostFocus != [] ==> exists h :: h in f.hostFocus && Below(Lower(s.host), h))
    && (Blank(f.query) || exists core :: Trimmed(core) && Pads(f.query, core) && search(core, f.regex, s))
  }

  lemma VerbsMet(s: Session, verbs: seq<string>)
    ensures (exists v :: v in verbs && Lower(s.verb) == Lower(v)) <==> exists v :: v in verbs && SameLetters(s.verb, v)
  {
    forall v ensures Lower(s.verb) == Lower(v) <==> SameLetters(s.verb, v) { SameLower(s.verb, v); }
  }

  lemma BucketsMet(s: Session, buckets: seq<string>)
    ensures Bucket(s) in buckets <==> exists b :: b in buckets && InBucket(s, b)
  {
    BucketExactly(s, Bucket(s));
    forall b | InBucket(s, b) ensures b == Bucket(s) { BucketExactly(s, b); }
  }

  lemma FocusMet(host: string, hosts: seq<string>)
    ensures (exists h :: h in hosts && InFocus(host, h)) <==> exists h :: h in hosts && Below(host, h)
  {
    forall h ensures InFocus(host, h) <==> Below(host, h) { FocusExactly(host, h); }
  }

  lemma QueryMet(s: Session, query: string, regex: bool, search: Search)
    ensures (Trim(query) != "" ==> search(Trim(query), regex, s)) <==>
            Blank(query) || exists core :: Trimmed(core) && Pads(query, core) && search(core, regex, s)
  {
    BlankExactly(query);
    TrimExactly(query, Trim(query));
    forall core | Trimmed(core) && Pads(query, core) ensures core == Trim(query) { TrimExactly(query, core); }
  }

  /** A session passes exactly when it is recent enough and meets every filter set. */
  lemma PassesExactly(s: Session, opts: ListOptions, search: Search)
    ensures Passes(s, opts, search) <==> IsRecent(s, opts.since) && Meets(s, opts.filter, search)
  {
    var f := opts.filter;
    if f.verbs.Some? { VerbsMet(s, f.verbs.value); }
    if f.buckets.Some? { BucketsMet(s, f.buckets.value); }
    if f.host.Some? { SameLower(s.host, f.host.value); }
    FocusMet(Lower(s.host), f.hostFocus);
    QueryMet(s, f.query, f.regex, search);
  }

  function PassingOf(opts: ListOptions, search: Search): Session -> Option<Session> {
    (s: Session) => if Passes(s, opts, search) then Some(s) else None
  }

  /** The passing sessions are listed in recording order before they are sorted. */
  lemma {:induction false} PassingSelected(all: seq<Session>, opts: ListOptions, search: Search)
    ensures Selects(PassingOf(opts, search), all, Passing(all, opts, search))
  {
    if all == [] {
      SelectsNone(PassingOf(opts, search));
    } else {
      PassingSelected(all[1..], opts, search);
      SelectsFront(PassingOf(opts, search), all[0], all[1..], Passing(all[1..], opts, search));
      assert [all[0]] + all[1..] == all;
    }
  }

  // ----- the sort keys -----

  /** The path of a URL: behind the host, up to the query. Without a scheme or without a
      path the whole URL counts. */
  ghost predicate IsPath(uri: string, path: string) {
    '?' !in path && exists whole :: Behind(uri, whole) && (whole == path || path + "?" <= whole)
  }

  /** What follows the scheme and the host. */
  ghost predicate Behind(uri: string, whole: string) {
    if exists scheme, host, rest :: Divides(uri, scheme, host, rest) then
      exists scheme, host :: Divides(uri, scheme, host, whole)
    else whole == uri
  }

  /** The first "://" and the first slash behind it divide the URL. */
  ghost predicate Divides(uri: string, scheme: string, host: string, rest: string) {
    && uri == scheme + "://" + host + rest && '/' !in host && rest != "" && rest[0] == '/'
    && forall at :: 0 <= at < |scheme| ==> !OccursAt(uri, "://", at)
  }

  lemma {:induction false} SlashFound(host: string, rest: string)
    requires '/' !in host && rest != "" && rest[0] == '/'
    ensures FromSlash(host + rest) == rest
  {
    if host == "" {
      assert host + rest == rest;
    } else {
      assert (host + rest)[0] == host[0] && host[0] in host && (host + rest)[1..] == host[1..] + rest;
      SlashFound(host[1..], rest);
    }
  }

  lemma {:induction false} SlashShape(s: string) returns (host: string)
    requires '/' in s
    ensures '/' !in host && s == host + FromSlash(s) && FromSlash(s) != "" && FromSlash(s)[0] == '/'
  {
    if s[0] == '/' {
      host := "";
    } else {
      assert s == [s[0]] + s[1..];
      var h := SlashShape(s[1..]);
      host := [s[0]] + h;
      Reassociate([s[0]], h, FromSlash(s[1..]));
    }
  }

  lemma OccursNext(s: string, pattern: string, at: nat)
    requires s != ""
    ensures OccursAt(s, pattern, at + 1) <==> OccursAt(s[1..], pattern, at)
  {
    if at + 1 + |pattern| <= |s| { assert s[at + 1..at + 1 + |pattern|] == s[1..][at..at + |pattern|]; }
  }

  lemma {:induction false} FirstFound(s: string, pattern: string, at: nat)
    requires pattern != "" && OccursAt(s, pattern, at) && forall k :: 0 <= k < at ==> !OccursAt(s, pattern, k)
    ensures AfterFirst(s, pattern) == Some(s[at + |pattern|..])
    decreases at
  {
    if at > 0 {
      assert !OccursAt(s, pattern, 0);
      OccursNext(s, pattern, at - 1);
      forall k: nat | k < at - 1 ensures !OccursAt(s[1..], pattern, k) {
        OccursNext(s, pattern, k);
        assert !OccursAt(s, pattern, k + 1);
      }
      FirstFound(s[1..], pattern, at - 1);
      assert s[1..][at - 1 + |pattern|..] == s[at + |pattern|..];
    }
  }

  lemma {:induction false} WhereFound(s: string, pattern: string) returns (at: nat)
    requires pattern != "" && AfterFirst(s, pattern).Some?
    ensures OccursAt(s, pattern, at) && forall k :: 0 <= k < at ==> !OccursAt(s, pattern, k)
    ensures AfterFirst(s, pattern).value == s[at + |pattern|..]
  {
    if s[..|pattern|] == pattern {
      at := 0;
    } else {
      assert !OccursAt(s, pattern, 0);
      var n := WhereFound(s[1..], pattern);
      at := n + 1;
      OccursNext(s, pattern, n);
      forall k: nat | k < at ensures !OccursAt(s, pattern, k) {
        if k > 0 { OccursNext(s, pattern, k - 1); }
      }
      assert s[1..][n + |pattern|..] == s[at + |pattern|..];
    }
  }

  lemma DividedPath(uri: string, scheme: string, host: string, rest: string)
    requires Divides(uri, scheme, host, rest)
    ensures AfterFirst(uri, "://") == Some(host + rest) && '/' in host + rest && FromSlash(host + rest) == rest
  {
    assert uri == scheme + "://" + (host + rest);
    assert uri[|scheme|..|scheme| + 3] == "://";
    FirstFound(uri, "://", |scheme|);
    assert uri[|scheme| + 3..] == host + rest;
    assert (host + rest)[|host|] == '/';
    SlashFound(host, rest);
  }

  function Whole(uri: string): string {
    var rest := AfterFirst(uri, "://");
    if rest.Some? && '/' in rest.value then FromSlash(rest.value) else uri
  }

  predicate HasPath(uri: string) {
    var rest := AfterFirst(uri, "://");
    rest.Some? && '/' in rest.value
  }

  lemma DividesOnce(uri: string, scheme: string, host: string, rest: string)
    requires Divides(uri, scheme, host, rest)
    ensures HasPath(uri) && rest == Whole(uri)
  {
    DividedPath(uri, scheme, host, rest);
  }

  lemma DividesAtAll(uri: string) returns (scheme: string, host: string)
    requires HasPath(uri)
    ensures Divides(uri, scheme, host, Whole(uri))
  {
    var rest := AfterFirst(uri, "://").value;
    var at := WhereFound(uri, "://");
    scheme := uri[..at];
    host := SlashShape(rest);
    CutOut(uri, "://", at);
    Reassociate(scheme + "://", host, FromSlash(rest));
  }

  lemma CutOut(s: string, pattern: string, at: nat)
    requires OccursAt(s, pattern, at)
    ensures s == s[..at] + pattern + s[at + |pattern|..]
  {
    assert s == s[..at] + s[at..at + |pattern|] + s[at + |pattern|..];
  }

  lemma WholeExactly(uri: string, whole: string)
    ensures whole == Whole(uri) <==> Behind(uri, whole)
  {
    forall scheme, host, rest | Divides(uri, scheme, host, rest) ensures HasPath(uri) && rest == Whole(uri) {
      DividesOnce(uri, scheme, host, rest);
    }
    if HasPath(uri) { var scheme, host := DividesAtAll(uri); }
  }

  lemma PathExactly(s: Session, path: string)
    ensures path == Path(s) <==> IsPath(s.uri, path)
  {
    var whole := Whole(s.uri);
    WholeExactly(s.uri, whole);
    UpToQuery(whole, Split(whole, '?')[0]);
    forall other | Behind(s.uri, other) ensures other == whole { WholeExactly(s.uri, other); }
    UpToQuery(whole, path);
  }

  lemma UpToQuery(whole: string, path: string)
    ensures path == Split(whole, '?')[0] <==> '?' !in path && (whole == path || path + "?" <= whole)
  {
    var parts := Split(whole, '?');
    SplitExactly(whole, '?', parts);
    if path == parts[0] && |parts| > 1 {
      assert whole == parts[0] + ['?'] + Join(parts[1..], '?');
    }
    if '?' !in path && path == whole { SplitPlain(whole, '?'); }
    if '?' !in path && path + "?" <= whole {
      var rest := whole[|path| + 1..];
      assert whole == path + ['?'] + rest;
      SplitFirst(path, rest, '?');
    }
  }

  /** What sorting by each key compares. */
  lemma SortKeyExactly(s: Session)
    ensures SortKey("method", s) == Words(Upper(s.verb)) && SortKey("host", s) == Words(Lower(s.host))
    ensures SortKey("status", s) == Number(if s.response.Some? then s.response.value.status else 0)
    ensures exists path :: IsPath(s.uri, path) && SortKey("path", s) == Words(path)
    ensures SortKey("idx", s) == SortKey("ts", s) == Number(s.timestamp)
    ensures SortKey("total", s) == Number(if s.metrics.Some? then s.metrics.value.latency else 0)
    ensures SortKey("type", s) == Words(
              if s.graphql then "graphql" else if s.grpc then "grpc"
              else if s.response.Some? then "http" else "pending")
    ensures SortKey("protocol", s) ==
            Words(if s.metrics.Some? && s.metrics.value.protocol.Some? then s.metrics.value.protocol.value else "")
    ensures SortKey("reqSize", s) == Number(if s.metrics.Some? then s.metrics.value.requestSize else |s.body|)
  {
    PathExactly(s, Path(s));
    KeysDiffer();
  }

  lemma KeysDiffer()
    ensures "idx" !in {"method", "status", "host", "path", "type", "reqSize", "total", "protocol"}
    ensures "ts" !in {"method", "status", "host", "path", "type", "reqSize", "total", "protocol"}
    ensures "total" !in {"method", "status", "host", "path", "type", "reqSize"}
    ensures "reqSize" !in {"method", "status", "host", "path", "type"}
    ensures "type" !in {"method", "status", "host", "path"}
    ensures "protocol" !in {"method", "status", "host", "path", "type", "reqSize", "total"}
    ensures "path" !in {"method", "status", "host"} && "host" !in {"method", "status"} && "status" != "method"
  {
    assert "type"[0] == 't' && "path"[0] == 'p' && "host"[0] == 'h' && "status"[0] == 's' && "method"[0] == 'm';
  }

  /** `a` comes before `b`: at the first difference it has the smaller character, or ends. */
  ghost predicate Before(a: string, b: string) {
    exists n :: 0 <= n <= |a| && n <= |b| && a[..n] == b[..n] && n < |b| && (n == |a| || a[n] < b[n])
  }

  lemma {:induction false} LessExactly(a: string, b: string)
    ensures Canonical.Less(a, b) <==> Before(a, b)
  {
    if b == "" {
    } else if a == "" {
      assert a[..0] == b[..0];
    } else {
      LessExactly(a[1..], b[1..]);
      if a[0] == b[0] {
        BeforeTail(a, b);
      } else {
        if a[0] < b[0] { assert a[..0] == b[..0]; }
        forall n | 0 < n <= |a| && n <= |b| ensures a[..n] != b[..n] { assert a[..n][0] != b[..n][0]; }
      }
    }
  }

  lemma BeforeTail(a: string, b: string)
    requires a != "" && b != "" && a[0] == b[0]
    ensures Before(a, b) <==> Before(a[1..], b[1..])
  {
    if n :| 0 <= n <= |a| && n <= |b| && a[..n] == b[..n] && n < |b| && (n == |a| || a[n] < b[n]) {
      assert n > 0;
      assert a[1..][..n - 1] == a[..n][1..] && b[1..][..n - 1] == b[..n][1..];
    }
    if n :| 0 <= n <= |a[1..]| && n <= |b[1..]| && a[1..][..n] == b[1..][..n] && n < |b[1..]|
            && (n == |a[1..]| || a[1..][n] < b[1..][n]) {
      assert a[..n + 1] == [a[0]] + a[1..][..n] && b[..n + 1] == [b[0]] + b[1..][..n];
    }
  }

  /** Ascending means smaller numbers first, and words by their first difference. */
  lemma AscendingExactly(a: Key, b: Key)
    requires a.Number? <==> b.Number?
    ensures KeyLeq(a, b) <==> if a.Number? then a.n <= b.n else a.s == b.s || Before(a.s, b.s)
  {
    if a.Words? {
      LessExactly(a.s, b.s);
      LessExactly(b.s, a.s);
      Canonical.LessTotal(a.s, b.s);
    }
  }

  /** A session whose protocol was not captured comes before all that have one, although
      the comment in the source has it the other way round. */
  lemma NoProtocolComesFirst(a: Session, b: Session)
    requires a.metrics.None? && b.metrics.Some? && b.metrics.value.protocol.Some?
    ensures KeyLeq(SortKey("protocol", a), SortKey("protocol", b))
    ensures b.metrics.value.protocol.value != "" ==> !KeyLeq(SortKey("protocol", b), SortKey("protocol", a))
  {
    assert "protocol"[1] == 'r' && "path"[1] == 'a' && |"protocol"| == 8;
  }

  // ----- without bodies -----

  /** A listing without bodies drops the bodies and payloads and nothing else. */
  lemma BodilessExactly(s: Session)
    ensures var t := WithoutBodies(s);
            && t.body == [] && (t.response.Some? <==> s.response.Some?)
            && (t.response.Some? ==> t.response.value.body == [] && t.response.value.status == s.response.value.status)
            && |t.frames| == |s.frames|
            && (forall i :: 0 <= i < |t.frames| ==>
                  t.frames[i].text.None? && t.frames[i].hex.None? && t.frames[i].opcode == s.frames[i].opcode)
            && t == s.(body := t.body, response := t.response, frames := t.frames)
  {}
}
