/** What the parts of a HAR entry say that the import does not read back, and what an
    import recovers of the exchange (src/har.rs). */
module HarMeaning {
  import opened Options
  import opened Text
  import opened Selections
  import opened Har

  // ----- the query string -----

  /** '+' and "%20" read as spaces, from left to right. */
  function Spaced(s: string): string {
    if s == "" then ""
    else if s[0] == '+' then " " + Spaced(s[1..])
    else if "%20" <= s then " " + Spaced(s[3..])
    else [s[0]] + Spaced(s[1..])
  }

  function Unplussed(s: string): string {
    seq(|s|, i requires 0 <= i < |s| => if s[i] == '+' then ' ' else s[i])
  }

  lemma {:induction false} PlusReplaced(s: string)
    ensures Replace(s, "+", " ") == Unplussed(s)
  {
    if s != "" {
      PlusReplaced(s[1..]);
      assert s[..1] == "+" <==> s[0] == '+';
      assert Unplussed(s) == [Unplussed(s)[0]] + Unplussed(s[1..]);
    }
  }

  lemma ShortSpaced(s: string)
    requires |s| < 3
    ensures Spaced(s) == Unplussed(s)
  {
    if s != "" {
      assert !("%20" <= s);
      if |s| == 2 { assert s[1..][1..] == "" && Spaced(s[1..]) == [Unplussed(s)[1]]; }
    }
  }

  lemma {:induction false} SpacesReplaced(s: string)
    ensures Replace(Unplussed(s), "%20", " ") == Spaced(s)
    decreases |s|
  {
    var u := Unplussed(s);
    if |s| < 3 {
      ShortSpaced(s);
    } else {
      assert u[..3] == "%20" <==> s[..3] == "%20" by {
        assert u[..3] == [u[0], u[1], u[2]] && s[..3] == [s[0], s[1], s[2]];
      }
      assert u[3..] == Unplussed(s[3..]) && u[1..] == Unplussed(s[1..]);
      SpacesReplaced(s[3..]);
      SpacesReplaced(s[1..]);
      assert "%20" <= s <==> s[..3] == "%20";
    }
  }

  /** Decoding in two passes is reading in one. */
  lemma UrlDecodeExactly(s: string)
    ensures UrlDecode(s) == Spaced(s)
  {
    PlusReplaced(s);
    SpacesReplaced(s);
  }

  /** One parameter as a URL holds it: a name alone, or a name and a value. */
  datatype Param = Param(name: string, value: Option<string>)

  function Written(p: Param): string { p.name + if p.value.Some? then "=" + p.value.value else "" }

  function Read(p: Param): (string, string) { (Spaced(p.name), Spaced(GetOr(p.value, ""))) }

  predicate PlainParam(p: Param) {
    '=' !in p.name && '&' !in p.name && '&' !in GetOr(p.value, "")
  }

  function WrittenAll(ps: seq<Param>): seq<string> {
    seq(|ps|, i requires 0 <= i < |ps| => Written(ps[i]))
  }

  function ReadAll(ps: seq<Param>): seq<(string, string)> {
    seq(|ps|, i requires 0 <= i < |ps| => Read(ps[i]))
  }

  lemma {:induction false} CutAt(a: string, c: char, b: string)
    requires c !in a
    ensures UpTo(a + [c] + b, c) == a && From(a + [c] + b, c) == b
  {
    var s := a + [c] + b;
    if a == "" {
      assert s[0] == c && s[1..] == b;
    } else {
      assert s[0] == a[0] && a[0] in a && s[1..] == a[1..] + [c] + b;
      CutAt(a[1..], c, b);
      assert [a[0]] + a[1..] == a;
    }
  }

  lemma ReadsParam(p: Param)
    requires PlainParam(p)
    ensures (UrlDecode(UpTo(Written(p), '=')), UrlDecode(From(Written(p), '='))) == Read(p)
    ensures '&' !in Written(p)
  {
    UrlDecodeExactly(p.name);
    UrlDecodeExactly(GetOr(p.value, ""));
    if p.value.Some? {
      CutAt(p.name, '=', p.value.value);
      assert Written(p) == p.name + ['='] + p.value.value;
    } else {
      UpToPlain(p.name, '=');
      FromPlain(p.name, '=');
      assert Written(p) == p.name;
    }
  }

  lemma WrittenTail(ps: seq<Param>)
    requires ps != []
    ensures WrittenAll(ps) == [Written(ps[0])] + WrittenAll(ps[1..])
    ensures ReadAll(ps) == [Read(ps[0])] + ReadAll(ps[1..])
  {}

  lemma PairsTail(w: string, ws: seq<string>)
    ensures QueryPairs([w] + ws) == [(UrlDecode(UpTo(w, '=')), UrlDecode(From(w, '=')))] + QueryPairs(ws)
  {
    assert ([w] + ws)[1..] == ws;
  }

  lemma {:induction false} ReadsParams(ps: seq<Param>)
    requires forall p :: p in ps ==> PlainParam(p)
    ensures QueryPairs(WrittenAll(ps)) == ReadAll(ps)
  {
    if ps != [] {
      assert ps[0] in ps && forall p :: p in ps[1..] ==> p in ps;
      ReadsParam(ps[0]);
      ReadsParams(ps[1..]);
      WrittenTail(ps);
      PairsTail(Written(ps[0]), WrittenAll(ps[1..]));
    }
  }

  /** The exported query of a URL lists its parameters, in order; a name without '=' has
      the empty value. */
  lemma QueryExactly(path: string, ps: seq<Param>)
    requires '?' !in path && ps != [] && (forall p :: p in ps ==> PlainParam(p)) && Join(WrittenAll(ps), '&') != ""
    ensures Query(path + "?" + Join(WrittenAll(ps), '&')) == ReadAll(ps)
  {
    CutAt(path, '?', Join(WrittenAll(ps), '&'));
    assert path + "?" + Join(WrittenAll(ps), '&') == path + ['?'] + Join(WrittenAll(ps), '&');
    forall w | w in WrittenAll(ps) ensures '&' !in w {
      var i :| 0 <= i < |ps| && WrittenAll(ps)[i] == w;
      assert ps[i] in ps;
      ReadsParam(ps[i]);
    }
    SplitJoin(WrittenAll(ps), '&');
    ReadsParams(ps);
  }

  /** Without a query, or with an empty one, there are none. */
  lemma NoQuery(path: string)
    requires '?' !in path
    ensures Query(path) == [] && Query(path + "?") == []
  {
    FromPlain(path, '?');
    CutAt(path, '?', "");
    assert path + "?" == path + ['?'] + "";
  }

  // ----- headers and cookies -----

  /** The header at `i` is the first of that name. */
  ghost predicate FirstNamed(headers: Headers, key: string, i: int) {
    && 0 <= i < |headers| && Lower(headers[i].0) == Lower(key)
    && forall k :: 0 <= k < i ==> Lower(headers[k].0) != Lower(key)
  }

  lemma {:induction false} GetExactly(headers: Headers, key: string)
    ensures Get(headers, key).None? <==> forall i :: !FirstNamed(headers, key, i)
    ensures Get(headers, key).Some? ==>
              exists i :: FirstNamed(headers, key, i) && headers[i].1 == Get(headers, key).value
  {
    if headers != [] {
      var rest := headers[1..];
      assert forall k :: 0 <= k < |rest| ==> rest[k] == headers[k + 1];
      GetExactly(rest, key);
      if Lower(headers[0].0) == Lower(key) {
        assert FirstNamed(headers, key, 0);
      } else {
        forall i: int ensures FirstNamed(headers, key, i + 1) <==> FirstNamed(rest, key, i) {
          NextNamed(headers, key, i);
        }
        if Get(rest, key).Some? {
          var i :| FirstNamed(rest, key, i) && rest[i].1 == Get(rest, key).value;
          assert FirstNamed(headers, key, i + 1);
        } else {
          forall i ensures !FirstNamed(headers, key, i) {
            assert !FirstNamed(rest, key, i - 1);
            NextNamed(headers, key, i - 1);
          }
        }
      }
    }
  }

  lemma NextNamed(headers: Headers, key: string, i: int)
    requires headers != [] && Lower(headers[0].0) != Lower(key)
    ensures FirstNamed(headers, key, i + 1) <==> FirstNamed(headers[1..], key, i)
  {
    var rest := headers[1..];
    assert forall k :: 0 <= k < |rest| ==> rest[k] == headers[k + 1];
    if FirstNamed(headers, key, i + 1) {
      forall k | 0 <= k < i ensures Lower(rest[k].0) != Lower(key) { assert rest[k] == headers[k + 1]; }
    }
    if FirstNamed(rest, key, i) {
      forall k | 0 <= k < i + 1 ensures Lower(headers[k].0) != Lower(key) {
        if k > 0 { assert headers[k] == rest[k - 1]; }
      }
    }
  }

  function KeptHeader(h: (string, string)): Option<(string, string)> { if SkipsHar(h.0) then None else Some(h) }

  /** Whether a header is kept does not depend on its spelling. */
  lemma SkippedHoweverSpelled(raw: string, core: string, name: string)
    requires Trimmed(core) && Pads(raw, core) && Trimmed(name) && SameLetters(core, name)
    ensures SkipsHar(raw) <==> SkipsHar(name)
  {
    TrimExactly(raw, core);
    TrimFixed(name);
    SameLower(core, name);
  }

  /** The exported headers are the others, in their order. */
  lemma {:induction false} KeptSelected(headers: Headers)
    ensures Selects(KeptHeader, headers, Kept(headers))
  {
    if headers == [] {
      SelectsNone(KeptHeader);
    } else {
      KeptSelected(headers[1..]);
      SelectsFront(KeptHeader, headers[0], headers[1..], Kept(headers[1..]));
      assert [headers[0]] + headers[1..] == headers;
    }
  }

  /** The cookie that one piece of a cookie header holds, if it names one. */
  function CookieOf(part: string): Option<(string, string)> {
    var pair := Trim(part);
    var name := Trim(UpTo(pair, '='));
    if name == "" then None else Some((name, Trim(From(pair, '='))))
  }

  lemma {:induction false} CookiesSelected(parts: seq<string>)
    ensures Selects(CookieOf, parts, Cookies(parts))
  {
    if parts == [] {
      SelectsNone(CookieOf);
    } else {
      CookiesSelected(parts[1..]);
      SelectsFront(CookieOf, parts[0], parts[1..], Cookies(parts[1..]));
      assert [parts[0]] + parts[1..] == parts;
    }
  }

  lemma AroundEquals(a: string, x: string, y: string, b: string)
    ensures (a + x) + "=" + (y + b) == a + (x + "=" + y) + b
  {}

  lemma EqualsIsTrimmed(x: string, y: string)
    requires x == "" || !IsWhitespace(x[0])
    requires y == "" || !IsWhitespace(y[|y| - 1])
    ensures Trimmed(x + "=" + y)
  {
    var core := x + "=" + y;
    assert core[0] == if x == "" then '=' else x[0];
    assert core[|core| - 1] == if y == "" then '=' else y[|y| - 1];
  }

  lemma TrimAroundEquals(n: string, v: string)
    ensures Trim(n + "=" + v) == TrimStart(n) + "=" + TrimEnd(v)
  {
    var a := TrimStartShape(n);
    var b := TrimEndShape(v);
    TrimStartFirst(n);
    TrimEndLast(v);
    AroundEquals(a, TrimStart(n), TrimEnd(v), b);
    EqualsIsTrimmed(TrimStart(n), TrimEnd(v));
    TrimOfPadded(a, TrimStart(n) + "=" + TrimEnd(v), b);
  }

  /** A name and a value around the first '=', white space aside. */
  lemma CookieOfPair(n: string, v: string, name: string, value: string)
    requires '=' !in n && name != "" && Trimmed(name) && Pads(n, name) && Trimmed(value) && Pads(v, value)
    ensures CookieOf(n + "=" + v) == Some((name, value))
  {
    TrimAroundEquals(n, v);
    var x, y := TrimStart(n), TrimEnd(v);
    TrimStartSuffix(n);
    assert '=' !in x by { assert forall i :: 0 <= i < |x| ==> x[i] == n[|n| - |x| + i]; }
    CutAt(x, '=', y);
    assert x + "=" + y == x + ['='] + y;
    TrimExactly(n, name);
    TrimExactly(v, value);
    TrimOfHalves(n, v);
  }

  lemma TrimOfHalves(n: string, v: string)
    ensures Trim(TrimStart(n)) == Trim(n) && Trim(TrimEnd(v)) == Trim(v)
  {
    var a := TrimStartShape(n);
    TrimStartSkips(a, TrimStart(n));
    TrimIsInside(v);
    var b := TrimEndShape(v);
    TrimOfEnd(TrimEnd(v), b);
  }

  lemma TrimOfEnd(t: string, b: string)
    requires Blank(b)
    ensures Trim(t + b) == Trim(t)
  {
    TrimIsInside(t);
    TrimIsTrimmed(t);
    var x, y :| Blank(x) && Blank(y) && t == x + Trim(t) + y;
    assert t + b == x + Trim(t) + (y + b);
    TrimOfPadded(x, Trim(t), y + b);
  }

  /** A name alone has the empty value; a piece without a name is no cookie. */
  lemma CookieAlone(part: string, name: string)
    requires '=' !in part && Trimmed(name) && Pads(part, name)
    ensures CookieOf(part) == if name == "" then None else Some((name, ""))
  {
    TrimExactly(part, name);
    TrimMembers(part, '=');
    UpToPlain(name, '=');
    FromPlain(name, '=');
    TrimFixed(name);
  }

  /** The exported cookies of a request are those of its first cookie header, piece by
      piece. */
  lemma CookiesExactly(headers: Headers, parts: seq<string>)
    requires parts != [] && forall p :: p in parts ==> ';' !in p
    ensures Get(headers, "cookie") == Some(Join(parts, ';')) ==> Selects(CookieOf, parts, RequestCookies(headers))
    ensures Get(headers, "cookie").None? ==> RequestCookies(headers) == []
  {
    SplitJoin(parts, ';');
    CookiesSelected(parts);
  }

  /** And that of a response is the one at the start of its first set-cookie. */
  lemma SetCookieExactly(headers: Headers, first: string, rest: string)
    requires ';' !in first
    ensures Get(headers, "set-cookie") in {Some(first), Some(first + [';'] + rest)} ==>
              ResponseCookies(headers) == First(CookieOf, first)
    ensures Get(headers, "set-cookie").None? ==> ResponseCookies(headers) == []
  {
    UpToPlain(first, ';');
    CutAt(first, ';', rest);
    OnlyCookie(first);
  }

  lemma OnlyCookie(part: string)
    ensures Cookies([part]) == First(CookieOf, part)
  {
    assert [part][1..] == [];
  }

  // ----- the status text -----

  /** The reason phrases of RFC 9110, section 15, for the codes that get one. */
  const PHRASES: map<nat, string> := map[
    200 := "OK", 201 := "Created", 204 := "No Content", 301 := "Moved Permanently", 302 := "Found",
    304 := "Not Modified", 400 := "Bad Request", 401 := "Unauthorized", 403 := "Forbidden", 404 := "Not Found",
    405 := "Method Not Allowed", 500 := "Internal Server Error", 502 := "Bad Gateway", 503 := "Service Unavailable"]

  lemma StatusTextExactly(status: nat)
    ensures StatusText(status) == if status in PHRASES then PHRASES[status] else ""
  {}

  // ----- what an export says -----

  /** The first value under a name, or what stands in for it. */
  ghost predicate HeaderOr(headers: Headers, key: string, missing: string, v: string) {
    || (exists i :: FirstNamed(headers, key, i) && headers[i].1 == v)
    || ((forall i :: !FirstNamed(headers, key, i)) && v == missing)
  }

  lemma HeaderOrExactly(headers: Headers, key: string, missing: string)
    ensures HeaderOr(headers, key, missing, GetOr(Get(headers, key), missing))
  {
    GetExactly(headers, key);
  }

  /** The body of a request stands in the entry with its first content type. */
  ghost predicate PostDataOf(c: Codec, r: RequestContext, p: Option<PostData>) {
    && (p.None? <==> r.body == [])
    && (p.Some? ==> p.value.text == c.lossy(r.body)
                    && HeaderOr(r.headers, "content-type", "application/octet-stream", p.value.mimeType))
  }

  lemma PostDataSays(c: Codec, r: RequestContext)
    ensures PostDataOf(c, r, ExportRequest(c, r).postData)
  {
    HeaderOrExactly(r.headers, "content-type", "application/octet-stream");
  }

  /** The request part of an entry, apart from its query and its cookies. */
  lemma RequestSays(c: Codec, r: RequestContext)
    ensures var h := ExportRequest(c, r);
            && h.verb == r.verb && h.url == r.uri && h.httpVersion == "HTTP/1.1"
            && Selects(KeptHeader, r.headers, h.headers)
            && h.headersSize == -1 && h.bodySize == |r.body| && PostDataOf(c, r, h.postData)
  {
    KeptSelected(r.headers);
    PostDataSays(c, r);
  }

  /** The body of a response stands in the entry as text, or in base64. */
  ghost predicate ContentOf(c: Codec, r: ResponseContext, t: Content) {
    && t.size == |r.body| && (t.text.None? <==> r.body == [])
    && HeaderOr(r.headers, "content-type", "text/plain", t.mimeType)
    && (t.text.Some? ==> t.text.value == if IsBinary(t.mimeType) then c.encode64(r.body) else c.lossy(r.body))
  }

  lemma ContentSays(c: Codec, r: ResponseContext, proto: string)
    ensures ContentOf(c, r, ExportResponse(c, r, proto).content)
  {
    HeaderOrExactly(r.headers, "content-type", "text/plain");
  }

  lemma RedirectSays(c: Codec, r: ResponseContext, proto: string)
    ensures HeaderOr(r.headers, "location", "", ExportResponse(c, r, proto).redirectUrl)
  {
    HeaderOrExactly(r.headers, "location", "");
    RedirectIsLocation(c, r, proto);
  }

  lemma RedirectIsLocation(c: Codec, r: ResponseContext, proto: string)
    ensures ExportResponse(c, r, proto).redirectUrl == GetOr(Get(r.headers, "location"), "")
  {}

  /** The response part, apart from its cookies. */
  lemma ResponseSays(c: Codec, r: ResponseContext, proto: string)
    ensures var h := ExportResponse(c, r, proto);
            && h.status == r.status && h.httpVersion == proto
            && h.statusText == (if r.status in PHRASES then PHRASES[r.status] else "")
            && Selects(KeptHeader, r.headers, h.headers) && h.headersSize == -1 && h.bodySize == |r.body|
            && HeaderOr(r.headers, "location", "", h.redirectUrl) && ContentOf(c, r, h.content)
  {
    KeptSelected(r.headers);
    StatusTextExactly(r.status);
    RedirectSays(c, r, proto);
    ContentSays(c, r, proto);
  }

  // ----- the host -----

  lemma {:induction false} SchemeDropped(scheme: string, rest: string)
    requires ':' !in scheme
    ensures DropScheme(scheme + "://" + rest) == rest
  {
    var url := scheme + "://" + rest;
    if scheme == "" {
      assert url[..3] == "://" && url[3..] == rest;
    } else {
      assert url[0] == scheme[0] && scheme[0] in scheme && url[1..] == scheme[1..] + "://" + rest;
      SchemeDropped(scheme[1..], rest);
    }
  }

  lemma {:induction false} UpToPrefix(a: string, rest: string, c: char)
    requires c !in a && (rest == "" || rest[0] == c)
    ensures UpTo(a + rest, c) == a
  {
    if rest == "" {
      UpToPlain(a, c);
      assert a + rest == a;
    } else {
      CutAt(a, c, rest[1..]);
      assert a + rest == a + [c] + rest[1..];
    }
  }

  lemma {:induction false} UpToLonger(a: string, rest: string, c: char)
    requires c !in a
    ensures UpTo(a + rest, c) == a + UpTo(rest, c)
  {
    if a == "" {
      assert a + rest == rest;
    } else {
      assert (a + rest)[0] == a[0] && a[0] in a && (a + rest)[1..] == a[1..] + rest;
      UpToLonger(a[1..], rest, c);
      assert [a[0]] + a[1..] == a;
    }
  }

  predicate StartsAfterHost(rest: string) { rest == "" || rest[0] in {'/', '?'} }

  lemma HostEnds(host: string, rest: string)
    requires '/' !in host && '?' !in host && StartsAfterHost(rest)
    ensures UpTo(UpTo(host + rest, '/'), '?') == host
  {
    UpToLonger(host, rest, '/');
    var tail := UpTo(rest, '/');
    assert tail == "" || tail[0] == '?';
    UpToPrefix(host, tail, '?');
  }

  /** The host of an imported request is what stands between the scheme and the path or
      the query. */
  lemma HostExactly(scheme: string, host: string, rest: string)
    requires ':' !in scheme && '/' !in host && '?' !in host && StartsAfterHost(rest)
    ensures ExtractHost(scheme + "://" + (host + rest)) == host
  {
    var url := scheme + "://" + (host + rest);
    SchemeDropped(scheme, host + rest);
    assert OccursAt(url, "://", |scheme|);
    HostEnds(host, rest);
  }

  // ----- what an import recovers -----

  lemma {:induction false} LowerStays(headers: Headers)
    requires LowerNames(headers)
    ensures Collect(headers) == headers
  {
    if headers != [] {
      assert headers[0] in headers && forall h :: h in headers[1..] ==> h in headers;
      LowerStays(headers[1..]);
      assert headers == [headers[0]] + headers[1..];
    }
  }

  lemma {:induction false} KeptIsLower(headers: Headers)
    requires LowerNames(headers)
    ensures LowerNames(Kept(headers))
  {
    if headers != [] {
      assert headers[0] in headers && forall h :: h in headers[1..] ==> h in headers;
      KeptIsLower(headers[1..]);
    }
  }

  /** The exchange itself comes back, and the request but for skipped headers and bytes
      that are no text. */
  lemma RequestRecovered(c: Codec, ex: Exchange, freshId: string, now: int)
    requires Laws(c) && LowerNames(ex.request.headers)
    ensures var back := Import(c, Export(c, ex), freshId, now);
            && back.id == ex.id && back.timestamp == ex.timestamp && back.updatedAt == ex.updatedAt
            && back.note == ex.note && back.tags == ex.tags && back.connectionId == ex.connectionId
            && back.streamId == ex.streamId && back.downstreamProtocol == ex.downstreamProtocol
            && back.protocolContext == ex.protocolContext
            && back.request.verb == ex.request.verb && back.request.uri == ex.request.uri
            && back.request.headers == Kept(ex.request.headers) && back.request.body == c.utf8(c.lossy(ex.request.body))
            && back.request.host == ExtractHost(ex.request.uri)
  {
    KeptIsLower(ex.request.headers);
    LowerStays(Kept(ex.request.headers));
    assert c.lossy(c.utf8("")) == "" && c.utf8("") == [];
    assert c.parseTime(c.rfc3339(ex.timestamp)) == Some(ex.timestamp);
    if ex.updatedAt.Some? {
      var t := ex.updatedAt.value;
      assert c.parseTime(c.rfc3339(t)) == Some(t);
    }
  }

  /** The bytes of a body that comes back: all of them from base64, and otherwise those of
      its text. */
  function BodyBack(c: Codec, body: Bytes, mime: string): Bytes {
    if IsBinary(mime) then body else c.utf8(c.lossy(body))
  }

  /** A response with a status comes back likewise, and no other. */
  lemma ResponseRecovered(c: Codec, ex: Exchange, freshId: string, now: int)
    requires Laws(c) && ex.response.Some? && LowerNames(ex.response.value.headers)
    ensures var r, back := ex.response.value, Import(c, Export(c, ex), freshId, now).response;
            if r.status == 0 then back.None?
            else
              && back.Some? && back.value.status == r.status && back.value.headers == Kept(r.headers)
              && back.value.body == BodyBack(c, r.body, ResponseMime(r))
              && back.value.requestUri == ex.request.uri && back.value.sessionId == Some(ex.id)
  {
    var r := ex.response.value;
    KeptIsLower(r.headers);
    LowerStays(Kept(r.headers));
    BodyComesBack(c, r.body, ResponseMime(r));
  }

  lemma BodyComesBack(c: Codec, body: Bytes, mime: string)
    requires Laws(c)
    ensures var text := if body == [] then "" else BodyText(c, body, mime);
            BodyBytes(c, text, Trim(UpTo(mime, ';'))) == BodyBack(c, body, mime)
  {
    SameKind(mime);
    assert c.lossy(c.utf8("")) == "" && c.utf8("") == [] && c.encode64([]) == "";
    assert c.decode64(c.encode64(body)) == Some(body);
  }

  /** And so do the figures: sizes and status, and each time as the double it became. */
  lemma MetricsRecovered(c: Codec, ex: Exchange, freshId: string, now: int)
    requires Rounds(c.double) && Timed(ex) && ex.response.value.status != 0
    ensures var m, back := ex.metrics.value, Import(c, Export(c, ex), freshId, now).metrics;
            && back.Some? && SizesOf(ex, back.value) && TimesOf(c, m, back.value)
            && back.value.protocol == NonEmpty(GetOr(m.protocol, "HTTP/1.1"))
  {
    TimesCarried(c, ex, freshId, now);
    SizesCarried(c, ex, freshId, now);
  }

  predicate SizesOf(ex: Exchange, back: Metrics)
    requires ex.response.Some?
  {
    && back.statusCode == ex.response.value.status
    && back.requestSize == |ex.request.body| && back.responseSize == |ex.response.value.body|
  }

  lemma SizesCarried(c: Codec, ex: Exchange, freshId: string, now: int)
    requires Timed(ex) && ex.response.value.status != 0
    ensures var back := Import(c, Export(c, ex), freshId, now).metrics; back.Some? && SizesOf(ex, back.value)
  {
    EntrySizes(c, Export(c, ex));
  }

  /** The figures of an entry that are no times; missing sizes are negative and count as 0. */
  lemma EntrySizes(c: Codec, e: Entry)
    ensures ImportMetrics(c, e).Some? ==>
              var m := ImportMetrics(c, e).value;
              && m.statusCode == e.response.status
              && (e.request.bodySize >= 0 ==> m.requestSize == e.request.bodySize)
              && (e.response.bodySize >= 0 ==> m.responseSize == e.response.bodySize)
              && (e.request.bodySize < 0 ==> m.requestSize == 0) && (e.response.bodySize < 0 ==> m.responseSize == 0)
  {}

  /** An exchange without a response comes back without one, and without figures. */
  lemma NothingRecovered(c: Codec, ex: Exchange, freshId: string, now: int)
    requires ex.response.None?
    ensures var back := Import(c, Export(c, ex), freshId, now); back.response.None? && back.metrics.None?
  {}

  /** A time from anywhere is read as whole milliseconds of 64 bits: cut off, and clamped at
      both ends. */
  lemma ToU64Exactly(x: real, n: U64)
    ensures n == ToU64(x) <==>
            (x < 0.0 && n == 0) || (n as real <= x < n as real + 1.0) || (x >= U64_LIMIT as real && n == U64_MAX)
  {
    if 0.0 <= x && x.Floor <= U64_MAX && n as real <= x < n as real + 1.0 { assert n == x.Floor; }
  }

  /** What an entry from elsewhere lacks: a new id, the present for an unreadable start, and
      no update time. */
  lemma MissingParts(c: Codec, e: Entry, freshId: string, now: int)
    ensures var back := Import(c, e, freshId, now);
            && back.id == (if e.id.Some? then e.id.value else freshId)
            && back.timestamp == (if c.parseTime(e.started).Some? then c.parseTime(e.started).value else now)
            && (back.updatedAt.Some? ==> e.updatedAt.Some? && c.parseTime(e.updatedAt.value) == back.updatedAt)
            && (back.updatedAt.None? ==> e.updatedAt.None? || c.parseTime(e.updatedAt.value).None?)
            && (back.metrics.None? <==> e.time <= 0.0 && e.response.status == 0)
  {}
}
