/** HAR 1.2 export and import (src/har.rs). Times in a HAR entry are doubles,
    here real numbers of milliseconds with every conversion and sum rounded; captured
    times are 64-bit numbers of whole milliseconds. */
module Har {
  import opened Options
  import opened Text

  type Bytes = seq<int>
  type Headers = seq<(string, string)>

  /** The whole numbers up to here are doubles. */
  const F64_EXACT: nat := 0x20_0000_0000_0000

  type U64 = n: nat | n < U64_LIMIT

  /** The conversions of other libraries, with the laws this module needs. */
  datatype Codec = Codec(
    lossy: Bytes -> string, utf8: string -> Bytes,
    encode64: Bytes -> string, decode64: string -> Option<Bytes>,
    rfc3339: int -> string, parseTime: string -> Option<int>, double: real -> real)

  predicate Whole(x: real) { x == x.Floor as real }

  /** What rounding to the nearest double keeps: doubles themselves, the order, and
      whole numbers, which are exact up to 2^53. */
  ghost predicate Rounds(double: real -> real) {
    && (forall x :: double(double(x)) == double(x))
    && (forall x, y :: x <= y ==> double(x) <= double(y))
    && (forall x :: Whole(x) ==> Whole(double(x)))
    && (forall x :: Whole(x) && 0.0 <= x <= F64_EXACT as real ==> double(x) == x)
  }

  ghost predicate Laws(c: Codec) {
    && (forall s :: c.lossy(c.utf8(s)) == s) && c.utf8("") == []
    && (forall b :: c.decode64(c.encode64(b)) == Some(b)) && c.encode64([]) == ""
    && (forall t :: c.parseTime(c.rfc3339(t)) == Some(t))
    && Rounds(c.double)
  }

  // ----- captured exchanges -----

  datatype RequestContext = RequestContext(verb: string, uri: string, headers: Headers, body: Bytes, host: string)

  datatype ResponseContext = ResponseContext(
    status: nat, headers: Headers, body: Bytes, requestUri: string, sessionId: Option<string>, ttfb: U64, bodyMs: U64)

  datatype Metrics = Metrics(
    latency: U64, requestSize: nat, responseSize: nat, statusCode: nat, ttfb: U64, bodyMs: U64,
    dns: Option<U64>, connect: Option<U64>, tls: Option<U64>, protocol: Option<string>)

  datatype Exchange = Exchange(
    id: string, timestamp: int, updatedAt: Option<int>, request: RequestContext,
    response: Option<ResponseContext>, metrics: Option<Metrics>, note: Option<string>, tags: seq<string>,
    connectionId: Option<string>, streamId: Option<nat>, downstreamProtocol: Option<string>,
    protocolContext: Option<string>)

  // ----- HAR entries -----

  datatype PostData = PostData(mimeType: string, text: string)

  datatype HarRequest = HarRequest(
    verb: string, url: string, httpVersion: string, cookies: seq<(string, string)>, headers: Headers,
    query: seq<(string, string)>, postData: Option<PostData>, headersSize: int, bodySize: int)

  datatype Content = Content(size: int, mimeType: string, text: Option<string>)

  datatype HarResponse = HarResponse(
    status: nat, statusText: string, httpVersion: string, cookies: seq<(string, string)>, headers: Headers,
    content: Content, redirectUrl: string, headersSize: int, bodySize: int)

  datatype Timings = Timings(
    dns: Option<real>, connect: Option<real>, ssl: Option<real>, wait: real, receive: real, send: real)

  datatype Entry = Entry(
    started: string, time: real, request: HarRequest, response: HarResponse, timings: Timings,
    serverIp: Option<string>, connection: Option<string>, id: Option<string>, note: Option<string>, tags: seq<string>,
    updatedAt: Option<string>, streamId: Option<nat>, downstreamProtocol: Option<string>,
    protocolContext: Option<string>)

  // ----- helpers of the source -----

  predicate SkipsHar(header: string) {
    var h := Lower(Trim(header));
    || h in {"connection", "keep-alive", "proxy-authenticate", "proxy-authorization", "proxy-connection",
             "te", "trailer", "transfer-encoding", "upgrade"}
    || StartsWith(h, "x-oproxy-")
  }

  function Kept(headers: Headers): Headers {
    if headers == [] then []
    else (if SkipsHar(headers[0].0) then [] else [headers[0]]) + Kept(headers[1..])
  }

  /** `HeaderMap::get`: the first value, ignoring case. */
  function Get(headers: Headers, key: string): Option<string> {
    if headers == [] then None
    else if Lower(headers[0].0) == Lower(key) then Some(headers[0].1)
    else Get(headers[1..], key)
  }

  function UpTo(s: string, c: char): string {
    if s == "" || s[0] == c then "" else [s[0]] + UpTo(s[1..], c)
  }

  function From(s: string, c: char): string {
    if s == "" then "" else if s[0] == c then s[1..] else From(s[1..], c)
  }

  predicate IsBinary(contentType: string) {
    var ct := Trim(UpTo(contentType, ';'));
    || StartsWith(ct, "image/") || StartsWith(ct, "audio/") || StartsWith(ct, "video/") || StartsWith(ct, "font/")
    || ct in {"application/octet-stream", "application/pdf", "application/wasm", "application/zip",
              "application/gzip", "application/x-tar", "application/x-gzip", "application/msgpack",
              "application/x-msgpack", "application/cbor", "application/protobuf", "application/x-protobuf",
              "application/vnd.google.protobuf"}
  }

  function BodyText(c: Codec, body: Bytes, mime: string): string {
    if IsBinary(mime) then c.encode64(body) else c.lossy(body)
  }

  function BodyBytes(c: Codec, text: string, mime: string): Bytes {
    if IsBinary(mime) then GetOr(c.decode64(text), c.utf8(text)) else c.utf8(text)
  }

  function StatusText(status: nat): string {
    match status
    case 200 => "OK" case 201 => "Created" case 204 => "No Content"
    case 301 => "Moved Permanently" case 302 => "Found" case 304 => "Not Modified"
    case 400 => "Bad Request" case 401 => "Unauthorized" case 403 => "Forbidden" case 404 => "Not Found"
    case 405 => "Method Not Allowed" case 500 => "Internal Server Error" case 502 => "Bad Gateway"
    case 503 => "Service Unavailable"
    case _ => ""
  }

  function Cookies(pairs: seq<string>): seq<(string, string)> {
    if pairs == [] then []
    else
      var pair := Trim(pairs[0]);
      var name := Trim(UpTo(pair, '='));
      (if name == "" then [] else [(name, Trim(From(pair, '=')))]) + Cookies(pairs[1..])
  }

  function RequestCookies(headers: Headers): seq<(string, string)> {
    var v := Get(headers, "cookie");
    if v.Some? then Cookies(Split(v.value, ';')) else []
  }

  function ResponseCookies(headers: Headers): seq<(string, string)> {
    var v := Get(headers, "set-cookie");
    if v.Some? then Cookies([UpTo(v.value, ';')]) else []
  }

  function UrlDecode(s: string): string { Replace(Replace(s, "+", " "), "%20", " ") }

  function QueryPairs(parts: seq<string>): seq<(string, string)> {
    if parts == [] then []
    else [(UrlDecode(UpTo(parts[0], '=')), UrlDecode(From(parts[0], '=')))] + QueryPairs(parts[1..])
  }

  function Query(uri: string): seq<(string, string)> {
    if From(uri, '?') == "" then [] else QueryPairs(Split(From(uri, '?'), '&'))
  }

  // ----- export -----

  function ExportRequest(c: Codec, r: RequestContext): HarRequest {
    HarRequest(
      r.verb, r.uri, "HTTP/1.1", RequestCookies(r.headers), Kept(r.headers), Query(r.uri),
      if r.body == [] then None
      else Some(PostData(GetOr(Get(r.headers, "content-type"), "application/octet-stream"), c.lossy(r.body))),
      -1, |r.body|)
  }

  const EMPTY_TIMINGS := Timings(None, None, None, 0.0, 0.0, 0.0)
  const EMPTY_RESPONSE :=
    HarResponse(0, "", "HTTP/1.1", [], [], Content(0, "application/octet-stream", None), "", -1, -1)

  function OrZero(o: Option<U64>): U64 { GetOr(o, 0) }

  /** Addition of `u64`, as in a release build. */
  function WrappingAdd(a: U64, b: U64): U64 { if a + b < U64_LIMIT then a + b else a + b - U64_LIMIT }

  function Setup(m: Metrics): U64 {
    WrappingAdd(WrappingAdd(OrZero(m.dns), OrZero(m.connect)), OrZero(m.tls))
  }

  function SaturatingSub(a: U64, b: U64): U64 { if a < b then 0 else a - b }

  function Wait(m: Metrics): U64 { SaturatingSub(m.ttfb, Setup(m)) }

  /** `as f64` */
  function ToF64(c: Codec, n: U64): real { c.double(n as real) }

  function Ms(c: Codec, o: Option<U64>): Option<real> { if o.Some? then Some(ToF64(c, o.value)) else None }

  function ExportTimings(c: Codec, m: Metrics): Timings {
    Timings(Ms(c, m.dns), Ms(c, m.connect), Ms(c, m.tls), ToF64(c, Wait(m)), ToF64(c, m.bodyMs), 0.0)
  }

  function Label(m: Option<Metrics>): string {
    if m.Some? then GetOr(m.value.protocol, "HTTP/1.1") else "HTTP/1.1"
  }

  function ResponseMime(r: ResponseContext): string { GetOr(Get(r.headers, "content-type"), "text/plain") }

  function ExportResponse(c: Codec, r: ResponseContext, proto: string): HarResponse {
    HarResponse(
      r.status, StatusText(r.status), proto, ResponseCookies(r.headers), Kept(r.headers),
      Content(|r.body|, ResponseMime(r), if r.body == [] then None else Some(BodyText(c, r.body, ResponseMime(r)))),
      GetOr(Get(r.headers, "location"), ""), -1, |r.body|)
  }

  predicate Timed(ex: Exchange) { ex.response.Some? && ex.metrics.Some? }

  /** `exchange_to_har_entry` */
  function Export(c: Codec, ex: Exchange): Entry {
    Entry(
      c.rfc3339(ex.timestamp),
      if Timed(ex) then ToF64(c, ex.metrics.value.latency) else 0.0,
      ExportRequest(c, ex.request),
      if ex.response.Some? then ExportResponse(c, ex.response.value, Label(ex.metrics)) else EMPTY_RESPONSE,
      if Timed(ex) then ExportTimings(c, ex.metrics.value) else EMPTY_TIMINGS,
      None, ex.connectionId, Some(ex.id), ex.note, ex.tags,
      if ex.updatedAt.Some? then Some(c.rfc3339(ex.updatedAt.value)) else None,
      ex.streamId, ex.downstreamProtocol, ex.protocolContext)
  }

  // ----- import -----

  /** `FromIterator for HeaderMap`: every entry is appended, its name in lower case. */
  function Collect(headers: Headers): Headers {
    if headers == [] then [] else [(Lower(headers[0].0), headers[0].1)] + Collect(headers[1..])
  }

  /** `as u64`: truncation, saturating at both ends. */
  function ToU64(x: real): U64 {
    if x < 0.0 then 0 else if x.Floor > U64_MAX then U64_MAX else x.Floor
  }

  function MsOf(o: Option<real>): Option<U64> { if o.Some? then Some(ToU64(o.value)) else None }

  function MaxReal(x: real, y: real): real { if x < y then y else x }

  /** The sum of four doubles, rounded after each addition. */
  function AddUp(c: Codec, x: real, y: real, z: real, w: real): real {
    c.double(c.double(c.double(x + y) + z) + w)
  }

  function FullTtfb(c: Codec, t: Timings): U64 {
    ToU64(MaxReal(AddUp(c, GetOr(t.dns, 0.0), GetOr(t.connect, 0.0), GetOr(t.ssl, 0.0), t.wait), 0.0))
  }

  function ExtractHost(url: string): string {
    UpTo(UpTo(AfterScheme(url), '/'), '?')
  }

  function AfterScheme(url: string): string {
    if exists at :: 0 <= at <= |url| && OccursAt(url, "://", at) then DropScheme(url) else url
  }

  function DropScheme(url: string): string {
    if url == "" || StartsWith(url, "://") then (if |url| >= 3 then url[3..] else "") else DropScheme(url[1..])
  }

  function ImportResponse(c: Codec, e: Entry, id: string): Option<ResponseContext> {
    if e.response.status == 0 then None
    else
      var mime := Trim(UpTo(e.response.content.mimeType, ';'));
      Some(ResponseContext(
        e.response.status, Collect(e.response.headers),
        BodyBytes(c, GetOr(e.response.content.text, ""), mime),
        e.request.url, Some(id), FullTtfb(c, e.timings), ToU64(e.timings.receive)))
  }

  function NonEmpty(s: string): Option<string> { if Trim(s) == "" then None else Some(Trim(s)) }

  function Clamp(n: int): nat { if n < 0 then 0 else n }

  function ImportMetrics(c: Codec, e: Entry): Option<Metrics> {
    if e.time <= 0.0 && e.response.status == 0 then None
    else Some(Metrics(
      ToU64(e.time), Clamp(e.request.bodySize), Clamp(e.response.bodySize), e.response.status,
      FullTtfb(c, e.timings), ToU64(e.timings.receive), MsOf(e.timings.dns), MsOf(e.timings.connect),
      MsOf(e.timings.ssl), NonEmpty(e.response.httpVersion)))
  }

  /** `har_entry_to_exchange`; `freshId` and `now` stand in for what is missing. */
  function Import(c: Codec, e: Entry, freshId: string, now: int): Exchange {
    var id := GetOr(e.id, freshId);
    Exchange(
      id, GetOr(c.parseTime(e.started), now),
      if e.updatedAt.Some? then c.parseTime(e.updatedAt.value) else None,
      RequestContext(
        e.request.verb, e.request.url, Collect(e.request.headers),
        c.utf8(if e.request.postData.Some? then e.request.postData.value.text else ""), ExtractHost(e.request.url)),
      ImportResponse(c, e, id), ImportMetrics(c, e), e.note, e.tags, e.connection, e.streamId, e.downstreamProtocol,
      e.protocolContext)
  }

  // ----- headers survive -----

  /** The invariant of `HeaderMap`: names are kept in lower case. */
  ghost predicate LowerNames(headers: Headers) {
    forall h :: h in headers ==> Lower(h.0) == h.0
  }

  lemma KeptShape(headers: Headers)
    requires headers != [] && Lower(headers[0].0) == headers[0].0
    ensures var h, rest := headers[0], Kept(headers[1..]);
            if SkipsHar(h.0) then Kept(headers) == rest
            else Kept(headers) == [h] + rest && Collect(Kept(headers)) == [h] + Collect(rest)
  {
    var h, rest := headers[0], Kept(headers[1..]);
    if SkipsHar(h.0) { assert [] + rest == rest; }
    else { assert ([h] + rest)[1..] == rest; }
  }

  lemma {:induction false} KeptSurvives(headers: Headers)
    requires LowerNames(headers)
    ensures Kept(Collect(Kept(headers))) == Kept(headers)
  {
    if headers != [] {
      assert headers[0] in headers && forall h :: h in headers[1..] ==> h in headers;
      KeptSurvives(headers[1..]);
      KeptShape(headers);
    }
  }

  /** A header the export keeps is found again after the import. */
  lemma {:induction false} GetSurvives(headers: Headers, key: string)
    requires LowerNames(headers) && Lower(key) == key && !SkipsHar(key)
    ensures Get(Collect(Kept(headers)), key) == Get(headers, key)
  {
    if headers != [] {
      assert headers[0] in headers && forall h :: h in headers[1..] ==> h in headers;
      GetSurvives(headers[1..], key);
      KeptShape(headers);
    }
  }

  lemma ContentTypeIsKept()
    ensures !SkipsHar("content-type") && Lower("content-type") == "content-type"
  {
    TrimFixed("content-type");
    assert Lower("content-type") == "content-type";
    assert "content-type"[0] != "x-oproxy-"[0] && "content-type"[2] == 'n';
    assert "connection"[3] == 'n' && "content-type"[3] == 't';
  }

  lemma CookiesAreKept()
    ensures !SkipsHar("cookie") && Lower("cookie") == "cookie"
    ensures !SkipsHar("set-cookie") && Lower("set-cookie") == "set-cookie"
  {
    TrimFixed("cookie");
    TrimFixed("set-cookie");
    assert Lower("cookie") == "cookie" && Lower("set-cookie") == "set-cookie";
    assert "cookie"[0] != "x-oproxy-"[0] && "set-cookie"[0] != "x-oproxy-"[0];
    assert "set-cookie"[0] == 's' && "keep-alive"[0] == 'k' && "connection"[2] == 'n';
  }

  lemma LocationIsKept()
    ensures !SkipsHar("location") && Lower("location") == "location"
  {
    TrimFixed("location");
    assert Lower("location") == "location";
    assert "location"[0] != "x-oproxy-"[0] && "location"[0] == 'l' && "trailer"[0] == 't';
  }

  lemma NamedHeadersSurvive(headers: Headers)
    requires LowerNames(headers)
    ensures var back := Collect(Kept(headers));
            && Get(back, "content-type") == Get(headers, "content-type")
            && Get(back, "cookie") == Get(headers, "cookie")
            && Get(back, "set-cookie") == Get(headers, "set-cookie")
            && Get(back, "location") == Get(headers, "location")
  {
    ContentTypeIsKept();
    CookiesAreKept();
    LocationIsKept();
    GetSurvives(headers, "content-type");
    GetSurvives(headers, "cookie");
    GetSurvives(headers, "set-cookie");
    GetSurvives(headers, "location");
  }

  // ----- bodies -----

  /** Reading the bytes as text loses no length: so for all UTF-8, and for
      malformed bytes whose replacement characters happen to fill the gap. */
  predicate TextKeepsLength(c: Codec, body: Bytes) { |c.utf8(c.lossy(body))| == |body| }

  lemma {:induction false} UpToPlain(s: string, c: char)
    requires c !in s
    ensures UpTo(s, c) == s
  {
    if s != "" {
      UpToPlain(s[1..], c);
      assert s == [s[0]] + s[1..];
    }
  }

  lemma {:induction false} FromPlain(s: string, c: char)
    requires c !in s
    ensures From(s, c) == ""
  {
    if s != "" {
      assert s == [s[0]] + s[1..];
      FromPlain(s[1..], c);
    }
  }

  lemma {:induction false} UpToStops(s: string, c: char)
    ensures c !in UpTo(s, c)
  {
    if s != "" { UpToStops(s[1..], c); }
  }

  lemma {:induction false} TrimStartMembers(s: string, c: char)
    requires c !in s
    ensures c !in TrimStart(s)
  {
    if s != "" && IsWhitespace(s[0]) { TrimStartMembers(s[1..], c); }
  }

  /** Parameters of a content type do not change whether its body is binary. */
  lemma SameKind(contentType: string)
    ensures IsBinary(Trim(UpTo(contentType, ';'))) == IsBinary(contentType)
  {
    var ct := UpTo(contentType, ';');
    UpToStops(contentType, ';');
    TrimStartMembers(ct, ';');
    TrimEndLast(TrimStart(ct));
    assert forall i :: 0 <= i < |Trim(ct)| ==> Trim(ct)[i] == TrimStart(ct)[i];
    UpToPlain(Trim(ct), ';');
    TrimTwice(ct);
  }

  // ----- the fixed point -----

  /** A captured time after one trip through a HAR entry. */
  function Trip(c: Codec, n: U64): U64 { ToU64(ToF64(c, n)) }

  function TripOf(c: Codec, o: Option<U64>): U64 { Trip(c, OrZero(o)) }

  /** Set-up and wait, added as doubles. */
  function Sum(c: Codec, m: Metrics): U64 {
    ToU64(AddUp(c, ToF64(c, OrZero(m.dns)), ToF64(c, OrZero(m.connect)), ToF64(c, OrZero(m.tls)), ToF64(c, Wait(m))))
  }

  function SetupAfter(c: Codec, m: Metrics): U64 {
    WrappingAdd(WrappingAdd(TripOf(c, m.dns), TripOf(c, m.connect)), TripOf(c, m.tls))
  }

  /** Adding the set-up times to the wait, as doubles, and taking them away again, as
      whole numbers, does not move the wait to another double. */
  predicate WaitKept(c: Codec, m: Metrics) {
    ToF64(c, SaturatingSub(Sum(c, m), SetupAfter(c, m))) == ToF64(c, Wait(m))
  }

  ghost predicate HeadersLower(ex: Exchange) {
    LowerNames(ex.request.headers) && (ex.response.Some? ==> LowerNames(ex.response.value.headers))
  }

  predicate ResponseKept(c: Codec, r: ResponseContext, proto: string) {
    && r.status != 0
    && proto != "" && Trimmed(proto)
    && (IsBinary(ResponseMime(r)) || TextKeepsLength(c, r.body))
  }

  /** What an exchange must be for its HAR entry to survive an import unchanged. */
  predicate Survives(c: Codec, ex: Exchange) {
    && TextKeepsLength(c, ex.request.body)
    && (ex.response.Some? ==> ResponseKept(c, ex.response.value, Label(ex.metrics)))
    && (Timed(ex) ==> WaitKept(c, ex.metrics.value))
  }

  lemma RequestAgain(c: Codec, ex: Exchange, freshId: string, now: int)
    requires Laws(c) && LowerNames(ex.request.headers)
    ensures ExportRequest(c, Import(c, Export(c, ex), freshId, now).request) == ExportRequest(c, ex.request) <==>
            TextKeepsLength(c, ex.request.body)
  {
    var r := ex.request;
    var r' := Import(c, Export(c, ex), freshId, now).request;
    KeptSurvives(r.headers);
    NamedHeadersSurvive(r.headers);
    assert r'.headers == Collect(Kept(r.headers));
    assert r'.body == if r.body == [] then [] else c.utf8(c.lossy(r.body));
    assert ExportRequest(c, r').bodySize == |r'.body|;
    if r.body == [] { assert c.lossy([]) == c.lossy(c.utf8("")) == ""; }
  }

  lemma BodyAgain(c: Codec, body: Bytes, mime: string)
    requires Laws(c)
    ensures var text := if body == [] then None else Some(BodyText(c, body, mime));
            var body' := BodyBytes(c, GetOr(text, ""), Trim(UpTo(mime, ';')));
            && (|body'| == |body| <==> IsBinary(mime) || TextKeepsLength(c, body))
            && (|body'| == |body| ==>
                  text == if body' == [] then None else Some(BodyText(c, body', mime)))
  {
    SameKind(mime);
    assert c.lossy([]) == c.lossy(c.utf8("")) == "";
    assert c.decode64(c.encode64([])) == Some([]);
  }

  lemma LabelAgain(proto: string)
    ensures GetOr(NonEmpty(proto), "HTTP/1.1") == proto <==> proto != "" && Trimmed(proto)
  {
    TrimFixed(proto);
    TrimFixed("HTTP/1.1");
    TrimIsTrimmed(proto);
  }

  lemma ResponseAgain(c: Codec, ex: Exchange, freshId: string, now: int)
    requires Laws(c) && HeadersLower(ex) && ex.response.Some?
    ensures Export(c, Import(c, Export(c, ex), freshId, now)).response == Export(c, ex).response <==>
            ResponseKept(c, ex.response.value, Label(ex.metrics))
  {
    var r := ex.response.value;
    var back := Import(c, Export(c, ex), freshId, now);
    if r.status == 0 {
      assert Export(c, back).response.bodySize == -1;
    } else {
      var r' := back.response.value;
      KeptSurvives(r.headers);
      NamedHeadersSurvive(r.headers);
      assert r'.headers == Collect(Kept(r.headers));
      BodyAgain(c, r.body, ResponseMime(r));
      LabelAgain(Label(ex.metrics));
      assert Label(back.metrics) == GetOr(NonEmpty(Label(ex.metrics)), "HTTP/1.1");
      assert Export(c, back).response.bodySize == |r'.body|;
    }
  }

  /** Every captured time, however long, is exported as the same double again. */
  lemma TripIsKept(c: Codec, n: U64)
    requires Rounds(c.double)
    ensures ToF64(c, Trip(c, n)) == ToF64(c, n) >= 0.0
  {
    var x := ToF64(c, n);
    assert 0.0 == c.double(0 as real) <= x;
    if x.Floor > U64_MAX {
      assert x <= c.double(U64_MAX as real) <= c.double(x) == x;
    } else {
      assert Trip(c, n) as real == x;
    }
  }

  lemma ExactWhole(c: Codec, n: nat)
    requires Rounds(c.double) && n <= F64_EXACT
    ensures c.double(n as real) == n as real
  {}

  lemma WholeTimes(c: Codec, n: U64)
    requires Rounds(c.double) && n <= F64_EXACT
    ensures ToF64(c, n) == n as real && Trip(c, n) == n
  {
    ExactWhole(c, n);
  }

  lemma OptionalTrip(c: Codec, o: Option<U64>)
    requires Rounds(c.double)
    ensures Ms(c, MsOf(Ms(c, o))) == Ms(c, o)
    ensures GetOr(MsOf(Ms(c, o)), 0) == TripOf(c, o)
    ensures GetOr(Ms(c, o), 0.0) == ToF64(c, OrZero(o)) >= 0.0
  {
    TripIsKept(c, OrZero(o));
    WholeTimes(c, 0);
  }

  lemma NotNegative(c: Codec, x: real)
    requires Rounds(c.double) && x >= 0.0
    ensures c.double(x) >= 0.0
  {
    assert c.double(0.0) == 0.0;
  }

  lemma SumNotNegative(c: Codec, x: real, y: real, z: real, w: real)
    requires Rounds(c.double) && x >= 0.0 && y >= 0.0 && z >= 0.0 && w >= 0.0
    ensures AddUp(c, x, y, z, w) >= 0.0
  {
    NotNegative(c, x + y);
    NotNegative(c, c.double(x + y) + z);
    NotNegative(c, c.double(c.double(x + y) + z) + w);
  }

  /** Importing the exported timings adds set-up and wait as doubles. */
  lemma ReadTtfb(c: Codec, m: Metrics)
    requires Rounds(c.double)
    ensures FullTtfb(c, ExportTimings(c, m)) == Sum(c, m)
  {
    OptionalTrip(c, m.dns);
    OptionalTrip(c, m.connect);
    OptionalTrip(c, m.tls);
    TripIsKept(c, Wait(m));
    SumNotNegative(
      c, ToF64(c, OrZero(m.dns)), ToF64(c, OrZero(m.connect)), ToF64(c, OrZero(m.tls)), ToF64(c, Wait(m)));
  }

  /** `back` holds the times of `m` after a trip through a HAR entry. */
  ghost predicate TimesOf(c: Codec, m: Metrics, back: Metrics) {
    && back.latency == Trip(c, m.latency) && back.bodyMs == Trip(c, m.bodyMs)
    && back.ttfb == FullTtfb(c, ExportTimings(c, m))
    && back.dns == MsOf(Ms(c, m.dns)) && back.connect == MsOf(Ms(c, m.connect)) && back.tls == MsOf(Ms(c, m.tls))
  }

  lemma WaitAgain(c: Codec, m: Metrics, back: Metrics)
    requires Rounds(c.double) && TimesOf(c, m, back)
    ensures Wait(back) == SaturatingSub(Sum(c, m), SetupAfter(c, m))
  {
    ReadTtfb(c, m);
    OptionalTrip(c, m.dns);
    OptionalTrip(c, m.connect);
    OptionalTrip(c, m.tls);
    assert Setup(back) == SetupAfter(c, m);
  }

  lemma TimesAgain(c: Codec, m: Metrics, back: Metrics)
    requires Rounds(c.double) && TimesOf(c, m, back)
    ensures ToF64(c, back.latency) == ToF64(c, m.latency)
    ensures ExportTimings(c, back) == ExportTimings(c, m) <==> WaitKept(c, m)
  {
    WaitAgain(c, m, back);
    TripIsKept(c, m.latency);
    TripIsKept(c, m.bodyMs);
    OptionalTrip(c, m.dns);
    OptionalTrip(c, m.connect);
    OptionalTrip(c, m.tls);
  }

  lemma UntimedTtfb(c: Codec)
    requires Rounds(c.double)
    ensures FullTtfb(c, EMPTY_TIMINGS) == 0 && ToF64(c, 0) == 0.0
  {
    WholeTimes(c, 0);
  }

  lemma TimesCarried(c: Codec, ex: Exchange, freshId: string, now: int)
    requires Timed(ex) && ex.response.value.status != 0
    ensures var back := Import(c, Export(c, ex), freshId, now);
            Timed(back) && TimesOf(c, ex.metrics.value, back.metrics.value)
  {}

  lemma UntimedAgain(c: Codec, ex: Exchange, freshId: string, now: int)
    requires Rounds(c.double) && !Timed(ex) && (ex.response.Some? ==> ex.response.value.status != 0)
    ensures var e' := Export(c, Import(c, Export(c, ex), freshId, now));
            e'.time == 0.0 && e'.timings == EMPTY_TIMINGS
  {
    UntimedTtfb(c);
  }

  lemma TimingsAgain(c: Codec, ex: Exchange, freshId: string, now: int)
    requires Rounds(c.double) && (ex.response.Some? ==> ex.response.value.status != 0)
    ensures var e, e' := Export(c, ex), Export(c, Import(c, Export(c, ex), freshId, now));
            e'.time == e.time && (e'.timings == e.timings <==> (Timed(ex) ==> WaitKept(c, ex.metrics.value)))
  {
    var back := Import(c, Export(c, ex), freshId, now);
    if Timed(ex) {
      TimesCarried(c, ex, freshId, now);
      TimesAgain(c, ex.metrics.value, back.metrics.value);
    } else {
      UntimedAgain(c, ex, freshId, now);
    }
  }

  // ----- which waits are kept -----

  function SetupSum(m: Metrics): nat { OrZero(m.dns) + OrZero(m.connect) + OrZero(m.tls) }

  /** `n` is itself a double. */
  predicate Exact(c: Codec, n: nat) { c.double(n as real) == n as real }

  /** Every time, and every sum on the way to the total, is a double of 64 bits. */
  predicate ExactSums(c: Codec, m: Metrics) {
    && Exact(c, OrZero(m.dns)) && Exact(c, OrZero(m.connect)) && Exact(c, OrZero(m.tls)) && Exact(c, Wait(m))
    && Exact(c, OrZero(m.dns) + OrZero(m.connect)) && Exact(c, SetupSum(m))
    && Exact(c, SetupSum(m) + Wait(m)) && SetupSum(m) + Wait(m) < U64_LIMIT
  }

  lemma ExactTrip(c: Codec, n: U64)
    requires Exact(c, n)
    ensures ToF64(c, n) == n as real && Trip(c, n) == n
  {}

  lemma AddExact(c: Codec, i: nat, j: nat)
    requires Exact(c, i + j)
    ensures c.double(i as real + j as real) == (i + j) as real
  {
    assert i as real + j as real == (i + j) as real;
  }

  lemma ExactSum(c: Codec, i: nat, j: nat, k: nat, n: nat)
    requires Exact(c, i + j) && Exact(c, i + j + k) && Exact(c, i + j + k + n)
    ensures AddUp(c, i as real, j as real, k as real, n as real) == (i + j + k + n) as real
  {
    AddExact(c, i, j);
    AddExact(c, i + j, k);
    AddExact(c, i + j + k, n);
  }

  lemma SetupIsExact(c: Codec, m: Metrics)
    requires ExactSums(c, m)
    ensures SetupAfter(c, m) == SetupSum(m) == Setup(m)
  {
    ExactTrip(c, OrZero(m.dns));
    ExactTrip(c, OrZero(m.connect));
    ExactTrip(c, OrZero(m.tls));
  }

  lemma SumIsExact(c: Codec, m: Metrics)
    requires ExactSums(c, m)
    ensures Sum(c, m) == SetupSum(m) + Wait(m)
  {
    ExactTrip(c, OrZero(m.dns));
    ExactTrip(c, OrZero(m.connect));
    ExactTrip(c, OrZero(m.tls));
    ExactTrip(c, Wait(m));
    ExactSum(c, OrZero(m.dns), OrZero(m.connect), OrZero(m.tls), Wait(m));
    WholeReal(SetupSum(m) + Wait(m));
  }

  lemma WholeReal(n: U64)
    ensures ToU64(n as real) == n
  {}

  lemma WaitAndSetup(m: Metrics)
    ensures Setup(m) + Wait(m) == if m.ttfb < Setup(m) then Setup(m) else m.ttfb
  {}

  /** Where every time and every sum is a double, the imported time to first byte is the
      captured one, or the set-up time if that is longer. */
  lemma ImportedTtfb(c: Codec, m: Metrics)
    requires Rounds(c.double) && ExactSums(c, m)
    ensures FullTtfb(c, ExportTimings(c, m)) == (if m.ttfb < Setup(m) then Setup(m) else m.ttfb)
  {
    ReadTtfb(c, m);
    SetupIsExact(c, m);
    SumIsExact(c, m);
    WaitAndSetup(m);
  }

  /** And then the wait is kept. */
  lemma ExactSumsKeepWait(c: Codec, m: Metrics)
    requires ExactSums(c, m)
    ensures WaitKept(c, m)
  {
    SetupIsExact(c, m);
    SumIsExact(c, m);
    assert SaturatingSub(Sum(c, m), SetupAfter(c, m)) == Wait(m);
  }

  /** So it is where set-up and wait together stay within 2^53 ms. */
  lemma ShortTimesKeepWait(c: Codec, m: Metrics)
    requires Rounds(c.double) && SetupSum(m) + Wait(m) <= F64_EXACT
    ensures ExactSums(c, m) && WaitKept(c, m)
  {
    ShortTimesAreExact(c, m);
    ExactSumsKeepWait(c, m);
  }

  lemma ShortTimesAreExact(c: Codec, m: Metrics)
    requires Rounds(c.double) && SetupSum(m) + Wait(m) <= F64_EXACT
    ensures ExactSums(c, m)
  {
    ExactWhole(c, OrZero(m.dns));
    ExactWhole(c, OrZero(m.connect));
    ExactWhole(c, OrZero(m.tls));
    ExactWhole(c, Wait(m));
    ExactWhole(c, OrZero(m.dns) + OrZero(m.connect));
    ExactWhole(c, SetupSum(m));
    ExactWhole(c, SetupSum(m) + Wait(m));
  }

  lemma AddNothing(c: Codec, x: real)
    requires Rounds(c.double) && c.double(x) == x
    ensures AddUp(c, 0.0, 0.0, 0.0, x) == x
  {
    assert c.double(0.0) == 0.0;
  }

  /** Without set-up times every wait is kept, up to the end of the `u64` range. */
  lemma NoSetupKeepsWait(c: Codec, m: Metrics)
    requires Rounds(c.double) && SetupSum(m) == 0
    ensures WaitKept(c, m)
  {
    WholeTimes(c, 0);
    AddNothing(c, ToF64(c, Wait(m)));
    assert Sum(c, m) == Trip(c, Wait(m));
    assert SetupAfter(c, m) == 0;
    TripIsKept(c, Wait(m));
  }

  /** A millisecond on top of 2^53 is lost in the sum, where ties go to the even double. */
  lemma LongWaitIsLost(c: Codec, m: Metrics)
    requires Rounds(c.double) && c.double((F64_EXACT + 1) as real) == F64_EXACT as real
    requires m.dns == Some(F64_EXACT) && m.connect == m.tls == None && m.ttfb == F64_EXACT + 1
    ensures !WaitKept(c, m)
  {
    WholeTimes(c, 0);
    WholeTimes(c, 1);
    WholeTimes(c, F64_EXACT);
    assert F64_EXACT as real + 1.0 == (F64_EXACT + 1) as real;
  }

  lemma OtherFieldsAgain(c: Codec, ex: Exchange, freshId: string, now: int)
    requires Laws(c)
    ensures var e, e' := Export(c, ex), Export(c, Import(c, Export(c, ex), freshId, now));
            e' == e.(time := e'.time, request := e'.request, response := e'.response, timings := e'.timings)
  {
    assert c.parseTime(c.rfc3339(ex.timestamp)) == Some(ex.timestamp);
    if ex.updatedAt.Some? {
      var t := ex.updatedAt.value;
      assert c.parseTime(c.rfc3339(t)) == Some(t);
    }
  }

  /** Importing an exported entry and exporting it again gives the same entry exactly
      when the exchange survives. */
  lemma ExportIsFixedPoint(c: Codec, ex: Exchange, freshId: string, now: int)
    requires Laws(c) && HeadersLower(ex)
    ensures Export(c, Import(c, Export(c, ex), freshId, now)) == Export(c, ex) <==> Survives(c, ex)
  {
    var e, e' := Export(c, ex), Export(c, Import(c, Export(c, ex), freshId, now));
    OtherFieldsAgain(c, ex, freshId, now);
    RequestAgain(c, ex, freshId, now);
    assert e'.request == e.request <==> TextKeepsLength(c, ex.request.body);
    if ex.response.Some? {
      ResponseAgain(c, ex, freshId, now);
      if ex.response.value.status != 0 { TimingsAgain(c, ex, freshId, now); }
    } else {
      TimingsAgain(c, ex, freshId, now);
      assert e'.response == e.response;
    }
  }
}
