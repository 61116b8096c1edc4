/** Which secrets of a request the redacted export knows, and where a response can still
    reflect them (src/redaction.rs, src/har.rs). */
module Secrets {
  import opened Options
  import opened Text
  import opened Json
  import opened Redaction
  import opened KeyRedaction
  import Replacing
  import Har

  /** JSON text and the text of numbers, as the library reads and prints them. */
  datatype Reader = Reader(parse: string -> Option<Value>, pretty: Value -> string, numText: Num -> string)

  type Headers = seq<(string, string)>

  // ----- collecting -----

  /** `push_sensitive_value` on an empty list. */
  function Literal(text: string): seq<string> {
    if ShouldRedactLiteral(Trim(text)) then [Trim(text)] else []
  }

  function LeafText(rd: Reader, v: Value): Option<string> {
    match v
    case Str(s) => Some(s)
    case Number(n) => Some(rd.numText(n))
    case Bool(b) => Some(if b then "true" else "false")
    case _ => None
  }

  function LeafLiteral(rd: Reader, v: Value): seq<string> {
    var text := LeafText(rd, v);
    if text.Some? then Literal(text.value) else []
  }

  function CollectJson(rd: Reader, v: Value, key: string): seq<string>
    decreases v
  {
    match v
    case Obj(fields) => CollectFields(rd, fields)
    case Arr(items) => CollectItems(rd, items, key)
    case _ => if IsSensitiveKey(key) then LeafLiteral(rd, v) else []
  }

  function CollectFields(rd: Reader, fields: seq<Field>): seq<string>
    decreases fields
  {
    if fields == [] then []
    else
      var n := |fields| - 1;
      CollectFields(rd, fields[..n]) + CollectJson(rd, fields[n].value, fields[n].key)
  }

  function CollectItems(rd: Reader, items: seq<Value>, key: string): seq<string>
    decreases items
  {
    if items == [] then []
    else
      var n := |items| - 1;
      CollectItems(rd, items[..n], key) + CollectJson(rd, items[n], key)
  }

  lemma FieldsGrow(rd: Reader, fields: seq<Field>, i: nat)
    requires i < |fields|
    ensures CollectFields(rd, fields[..i + 1]) ==
            CollectFields(rd, fields[..i]) + CollectJson(rd, fields[i].value, fields[i].key)
  {
    assert fields[..i + 1][..i] == fields[..i];
  }

  lemma ItemsGrow(rd: Reader, items: seq<Value>, key: string, i: nat)
    requires i < |items|
    ensures CollectItems(rd, items[..i + 1], key) == CollectItems(rd, items[..i], key) + CollectJson(rd, items[i], key)
  {
    assert items[..i + 1][..i] == items[..i];
  }

  /** `collect_sensitive_json_values`: pushes onto the list it is given. */
  method CollectSensitiveJsonValues(rd: Reader, v: Value, key: string, found: seq<string>) returns (out: seq<string>)
    ensures out == found + CollectJson(rd, v, key)
    decreases v
  {
    out := found;
    match v {
      case Obj(fields) =>
        for i := 0 to |fields|
          invariant out == found + CollectFields(rd, fields[..i])
        {
          assert fields[i] in fields;
          FieldsGrow(rd, fields, i);
          Reassociate(found, CollectFields(rd, fields[..i]), CollectJson(rd, fields[i].value, fields[i].key));
          out := CollectSensitiveJsonValues(rd, fields[i].value, fields[i].key, out);
        }
        assert fields[..|fields|] == fields;
      case Arr(items) =>
        for i := 0 to |items|
          invariant out == found + CollectItems(rd, items[..i], key)
        {
          assert items[i] in items;
          ItemsGrow(rd, items, key, i);
          Reassociate(found, CollectItems(rd, items[..i], key), CollectJson(rd, items[i], key));
          out := CollectSensitiveJsonValues(rd, items[i], key, out);
        }
        assert items[..|items|] == items;
      case _ =>
        if IsSensitiveKey(key) { out := out + LeafLiteral(rd, v); }
    }
  }

  function ValueOf(part: string): string
    requires IsPair(part)
  {
    part[|KeyOf(part)| + 1..]
  }

  function CollectParts(parts: seq<string>): seq<string> {
    if parts == [] then []
    else (if HidesValue(parts[0]) then Literal(ValueOf(parts[0])) else []) + CollectParts(parts[1..])
  }

  function CollectBody(rd: Reader, body: string): seq<string> {
    if Trim(body) == "" then []
    else if rd.parse(body).Some? then CollectJson(rd, rd.parse(body).value, "")
    else CollectParts(Split(body, Separator(body)))
  }

  function CollectHeaders(headers: Headers): seq<string> {
    if headers == [] then []
    else (if IsSensitiveKey(headers[0].0) then Literal(headers[0].1) else []) + CollectHeaders(headers[1..])
  }

  /** `sensitive_values` before it is sorted and freed of duplicates. */
  function SensitiveValues(rd: Reader, headers: Headers, body: string): seq<string> {
    CollectHeaders(headers) + CollectBody(rd, body)
  }

  // ----- what counts as a secret -----

  /** Going down `path` from `v`, which stands under `key`, leads to a scalar whose
      innermost key is sensitive and whose trimmed text is `s`. */
  ghost predicate LeadsTo(rd: Reader, v: Value, key: string, path: seq<nat>, s: string)
    decreases |path|
  {
    if path == [] then
      IsSensitiveKey(key) && LeafText(rd, v).Some? && Trim(LeafText(rd, v).value) == s
    else match v
      case Obj(fields) =>
        path[0] < |fields| && LeadsTo(rd, fields[path[0]].value, fields[path[0]].key, path[1..], s)
      case Arr(items) => path[0] < |items| && LeadsTo(rd, items[path[0]], key, path[1..], s)
      case _ => false
  }

  ghost predicate JsonSecret(rd: Reader, v: Value, key: string, s: string) {
    exists path :: LeadsTo(rd, v, key, path, s)
  }

  ghost predicate FormSecret(parts: seq<string>, s: string) {
    exists p :: p in parts && HidesValue(p) && Trim(ValueOf(p)) == s
  }

  ghost predicate HeaderSecret(headers: Headers, s: string) {
    exists h :: h in headers && IsSensitiveKey(h.0) && Trim(h.1) == s
  }

  ghost predicate BodySecret(rd: Reader, body: string, s: string) {
    && Trim(body) != ""
    && if rd.parse(body).Some? then JsonSecret(rd, rd.parse(body).value, "", s)
       else FormSecret(Split(body, Separator(body)), s)
  }

  ghost predicate Secret(rd: Reader, headers: Headers, body: string, s: string) {
    HeaderSecret(headers, s) || BodySecret(rd, body, s)
  }

  // ----- the collection is exact -----

  lemma {:induction false} FromFields(rd: Reader, fields: seq<Field>, s: string)
    ensures s in CollectFields(rd, fields) <==>
            exists i :: 0 <= i < |fields| && s in CollectJson(rd, fields[i].value, fields[i].key)
    decreases fields
  {
    if fields != [] {
      var n := |fields| - 1;
      FromFields(rd, fields[..n], s);
      if s in CollectFields(rd, fields[..n]) {
        var i :| 0 <= i < n && s in CollectJson(rd, fields[..n][i].value, fields[..n][i].key);
        assert fields[i] == fields[..n][i];
      }
      if i :| 0 <= i < |fields| && s in CollectJson(rd, fields[i].value, fields[i].key) {
        if i < n { assert fields[..n][i] == fields[i]; }
      }
    }
  }

  lemma {:induction false} FromItems(rd: Reader, items: seq<Value>, key: string, s: string)
    ensures s in CollectItems(rd, items, key) <==>
            exists i :: 0 <= i < |items| && s in CollectJson(rd, items[i], key)
    decreases items
  {
    if items != [] {
      var n := |items| - 1;
      FromItems(rd, items[..n], key, s);
      if s in CollectItems(rd, items[..n], key) {
        var i :| 0 <= i < n && s in CollectJson(rd, items[..n][i], key);
        assert items[i] == items[..n][i];
      }
      if i :| 0 <= i < |items| && s in CollectJson(rd, items[i], key) {
        if i < n { assert items[..n][i] == items[i]; }
      }
    }
  }

  /** What is collected is found at the end of some path. */
  lemma {:induction false} CollectedIsSecret(rd: Reader, v: Value, key: string, s: string) returns (path: seq<nat>)
    requires s in CollectJson(rd, v, key)
    ensures LeadsTo(rd, v, key, path, s) && ShouldRedactLiteral(s)
    decreases v
  {
    match v
    case Obj(fields) =>
      FromFields(rd, fields, s);
      var i :| 0 <= i < |fields| && s in CollectJson(rd, fields[i].value, fields[i].key);
      var rest := CollectedIsSecret(rd, fields[i].value, fields[i].key, s);
      path := [i] + rest;
      assert path[1..] == rest;
    case Arr(items) =>
      FromItems(rd, items, key, s);
      var i :| 0 <= i < |items| && s in CollectJson(rd, items[i], key);
      var rest := CollectedIsSecret(rd, items[i], key, s);
      path := [i] + rest;
      assert path[1..] == rest;
    case _ => path := [];
  }

  /** A long enough text at the end of some path is collected. */
  lemma {:induction false} SecretIsCollected(rd: Reader, v: Value, key: string, path: seq<nat>, s: string)
    requires LeadsTo(rd, v, key, path, s) && ShouldRedactLiteral(s)
    ensures s in CollectJson(rd, v, key)
    decreases |path|
  {
    if path != [] {
      match v
      case Obj(fields) =>
        SecretIsCollected(rd, fields[path[0]].value, fields[path[0]].key, path[1..], s);
        FromFields(rd, fields, s);
      case Arr(items) =>
        SecretIsCollected(rd, items[path[0]], key, path[1..], s);
        FromItems(rd, items, key, s);
    }
  }

  lemma {:induction false} PartsCollected(parts: seq<string>, s: string)
    ensures s in CollectParts(parts) <==> ShouldRedactLiteral(s) && FormSecret(parts, s)
  {
    if parts != [] {
      PartsCollected(parts[1..], s);
      assert parts == [parts[0]] + parts[1..];
    }
  }

  lemma {:induction false} HeadersCollected(headers: Headers, s: string)
    ensures s in CollectHeaders(headers) <==> ShouldRedactLiteral(s) && HeaderSecret(headers, s)
  {
    if headers != [] {
      HeadersCollected(headers[1..], s);
      assert headers == [headers[0]] + headers[1..];
    }
  }

  /** The collected values are exactly the secrets that are long enough to replace. */
  lemma CollectedExactly(rd: Reader, headers: Headers, body: string, s: string)
    ensures s in SensitiveValues(rd, headers, body) <==> ShouldRedactLiteral(s) && Secret(rd, headers, body, s)
  {
    HeadersCollected(headers, s);
    if Trim(body) != "" {
      PartsCollected(Split(body, Separator(body)), s);
      if rd.parse(body).Some? {
        var v := rd.parse(body).value;
        if s in CollectJson(rd, v, "") { var path := CollectedIsSecret(rd, v, "", s); }
        if ShouldRedactLiteral(s) && JsonSecret(rd, v, "", s) {
          var path :| LeadsTo(rd, v, "", path, s);
          SecretIsCollected(rd, v, "", path, s);
        }
      }
    }
  }

  // ----- what a response can reflect -----

  /** `redact_body_text` */
  function RedactBody(rd: Reader, body: string): string {
    if Trim(body) == "" then body
    else if rd.parse(body).Some? then rd.pretty(RedactJson(rd.parse(body).value))
    else RedactForm(body)
  }

  /** What a redacted body is: a blank one stays, JSON is printed again and a form written
      again with nothing but markers under sensitive keys and all else as it was. */
  ghost predicate BodyRedacted(rd: Reader, body: string, out: string) {
    if Blank(body) then out == body
    else if rd.parse(body).Some? then
      exists v :: AgreeOutside(rd.parse(body).value, v) && Clean(v) && out == rd.pretty(v)
    else FormsAgree(body, out) && CleanForm(out)
  }

  lemma RedactBodyExactly(rd: Reader, body: string, out: string)
    ensures out == RedactBody(rd, body) <==> BodyRedacted(rd, body, out)
  {
    BlankExactly(body);
    if rd.parse(body).Some? {
      var v := rd.parse(body).value;
      RedactJsonExactly(v, RedactJson(v));
      forall r | AgreeOutside(v, r) && Clean(r) ensures r == RedactJson(v) { RedactJsonExactly(v, r); }
    }
    RedactFormExactly(body, out);
  }

  /** `redact_headers` on one header. */
  function RedactHeader(h: (string, string)): (string, string) {
    (h.0, if IsSensitiveKey(h.0) then REDACTED else h.1)
  }

  /** `redact_headers` */
  function RedactHeaders(headers: Headers): (r: Headers)
    ensures |r| == |headers|
  {
    seq(|headers|, i requires 0 <= i < |headers| => RedactHeader(headers[i]))
  }

  /** A body as text, redacted by key and by known value; `values` are the collected
      values, sorted and freed of duplicates. */
  function RedactedText(c: Har.Codec, rd: Reader, values: seq<string>, body: Har.Bytes): string {
    RedactKnownValues(RedactBody(rd, c.lossy(body)), values)
  }

  /** `redact_exchange_for_export` on the response: headers by key alone. */
  function Redacted(c: Har.Codec, rd: Reader, values: seq<string>, r: Har.ResponseContext): Har.ResponseContext {
    r.(headers := Har.Kept(RedactHeaders(r.headers)), body := c.utf8(RedactedText(c, rd, values, r.body)))
  }

  /** The response of a redacted export, as a HAR entry holds it. */
  function ExportResponse(c: Har.Codec, rd: Reader, values: seq<string>, r: Har.ResponseContext, proto: string)
    : Har.HarResponse
  {
    Har.ExportResponse(c, Redacted(c, rd, values, r), proto)
  }

  ghost predicate InPairs(pairs: seq<(string, string)>, s: string) {
    exists h :: h in pairs && (Contains(h.0, s) || Contains(h.1, s))
  }

  ghost predicate InBody(e: Har.HarResponse, s: string) {
    e.content.text.Some? && Contains(e.content.text.value, s)
  }

  /** Some text of the exported response holds `s`. */
  ghost predicate Reflects(e: Har.HarResponse, s: string) {
    || InPairs(e.headers, s) || InPairs(e.cookies, s) || InBody(e, s)
    || Contains(e.redirectUrl, s) || Contains(e.content.mimeType, s)
    || Contains(e.statusText, s) || Contains(e.httpVersion, s)
  }

  ghost predicate SameValues(values: seq<string>, collected: seq<string>) {
    forall v :: v in values <==> v in collected
  }

  /** Whatever the response holds, no secret of the request that has at least 4 bytes
      and cannot overlap the marker is left in its redacted text. */
  lemma SecretNotInText(c: Har.Codec, rd: Reader, headers: Headers, body: string, values: seq<string>,
                        response: Har.Bytes, s: string)
    requires SameValues(values, SensitiveValues(rd, headers, body))
    requires Secret(rd, headers, body, s) && Utf8Len(s) >= 4 && NoClash(s)
    ensures !Contains(RedactedText(c, rd, values, response), s)
  {
    NotTheMarker(s);
    CollectedExactly(rd, headers, body, s);
    KnownValueGone(RedactBody(rd, c.lossy(response)), values, s);
  }

  lemma NotTheMarker(s: string)
    requires NoClash(s) && s != ""
    ensures !Contains(REDACTED, s) && s != REDACTED
  {
    forall at | 0 <= at <= |REDACTED| ensures !OccursAt(REDACTED, s, at) { OccursAgrees(REDACTED, s, at); }
    assert REDACTED[0..|REDACTED|] == REDACTED;
    assert !OccursAt(REDACTED, s, 0);
  }

  lemma OccursAgrees(text: string, s: string, at: nat)
    ensures OccursAt(text, s, at) ==> Replacing.AgreeAt(s, text, at)
  {
    if OccursAt(text, s, at) {
      forall k | 0 <= k < |s| ensures s[k] == text[at + k] { assert text[at..at + |s|][k] == s[k]; }
    }
  }

  /** A header that shows `s`: it is exported, and `s` stands in its name, or in its value
      under an insensitive name. */
  ghost predicate Shows(h: (string, string), s: string) {
    !Har.SkipsHar(h.0) && (Contains(h.0, s) || (!IsSensitiveKey(h.0) && Contains(h.1, s)))
  }

  lemma {:induction false} KeptMembers(headers: Headers, h: (string, string))
    ensures h in Har.Kept(headers) <==> h in headers && !Har.SkipsHar(h.0)
  {
    if headers != [] {
      KeptMembers(headers[1..], h);
      assert headers == [headers[0]] + headers[1..];
    }
  }

  lemma {:induction false} FoundIsMember(headers: Headers, key: string)
    ensures Har.Get(headers, key).Some? ==>
              exists h :: h in headers && h.1 == Har.Get(headers, key).value
  {
    if headers != [] {
      FoundIsMember(headers[1..], key);
      assert headers[0] in headers && forall h :: h in headers[1..] ==> h in headers;
    }
  }

  ghost predicate AnyShows(headers: Headers, s: string) { exists h :: h in headers && Shows(h, s) }

  /** The exported headers show `s` exactly when some header of the response shows it. */
  lemma HeadersShow(headers: Headers, s: string)
    requires NoClash(s) && s != ""
    ensures InPairs(Har.Kept(RedactHeaders(headers)), s) <==> AnyShows(headers, s)
  {
    var redacted := RedactHeaders(headers);
    NotTheMarker(s);
    if h :| h in Har.Kept(redacted) && (Contains(h.0, s) || Contains(h.1, s)) {
      KeptMembers(redacted, h);
      var i :| 0 <= i < |redacted| && redacted[i] == h;
      assert headers[i] in headers && Shows(headers[i], s);
    }
    if h :| h in headers && Shows(h, s) {
      var i :| 0 <= i < |headers| && headers[i] == h;
      assert redacted[i] in redacted;
      KeptMembers(redacted, redacted[i]);
    }
  }

  lemma KeptStep(h: (string, string), rest: Headers)
    ensures Har.Kept([h] + rest) == if Har.SkipsHar(h.0) then Har.Kept(rest) else [h] + Har.Kept(rest)
  {
    assert ([h] + rest)[1..] == rest && [] + Har.Kept(rest) == Har.Kept(rest);
  }

  lemma GetStep(h: (string, string), rest: Headers, key: string)
    ensures Har.Get([h] + rest, key) == if Lower(h.0) == Lower(key) then Some(h.1) else Har.Get(rest, key)
  {
    assert ([h] + rest)[1..] == rest;
  }

  lemma RedactStep(headers: Headers)
    requires headers != []
    ensures RedactHeaders(headers) == [RedactHeader(headers[0])] + RedactHeaders(headers[1..])
  {}

  /** Looking up a kept name in the exported headers finds what the response has under it,
      or the marker where the name is sensitive. */
  lemma {:induction false} GetExported(headers: Headers, key: string)
    requires Har.LowerNames(headers) && Lower(key) == key && !Har.SkipsHar(key)
    ensures var found := Har.Get(headers, key);
            Har.Get(Har.Kept(RedactHeaders(headers)), key) ==
            if found.Some? && IsSensitiveKey(key) then Some(REDACTED) else found
  {
    if headers != [] {
      var h, rest := RedactHeader(headers[0]), RedactHeaders(headers[1..]);
      assert headers[0] in headers && forall h :: h in headers[1..] ==> h in headers;
      GetExported(headers[1..], key);
      RedactStep(headers);
      KeptStep(h, rest);
      GetStep(h, Har.Kept(rest), key);
    }
  }

  lemma {:induction false} KeptTwice(headers: Headers)
    ensures Har.Kept(Har.Kept(headers)) == Har.Kept(headers)
  {
    if headers != [] {
      var rest := Har.Kept(headers[1..]);
      KeptTwice(headers[1..]);
      if Har.SkipsHar(headers[0].0) { assert Har.Kept(headers) == rest; }
      else { assert Har.Kept(headers) == [headers[0]] + rest && ([headers[0]] + rest)[1..] == rest; }
    }
  }

  lemma SetCookieIsSensitive()
    ensures IsSensitiveKey("set-cookie")
  {
    TrimFixed("set-cookie");
    assert Lower("set-cookie") == "set-cookie" && Underscored("set-cookie") == "set_cookie";
  }

  lemma ContentTypeIsPlain()
    ensures !IsSensitiveKey("content-type")
  {
    TrimFixed("content-type");
    assert Lower("content-type") == "content-type" && Underscored("content-type") == "content_type";
    NothingSensitive("content_type");
    assert "cookie"[2] == 'o';
  }

  lemma NothingSensitive(key: string)
    requires key == "content_type"
    ensures !Contains(key, "password") && !Contains(key, "secret") && !Contains(key, "api_key")
    ensures !EndsWith(key, "_token")
  {
    NotWithin(key, "password", 1);
    NotWithin(key, "secret", 0);
    NotWithin(key, "api_key", 0);
    assert key[11] == 'e' && "_token"[5] == 'n';
  }

  lemma OccursMember(text: string, pattern: string, at: nat, k: nat)
    requires k < |pattern| && OccursAt(text, pattern, at)
    ensures pattern[k] in text
  {
    assert text[at..at + |pattern|][k] == text[at + k];
  }

  /** A pattern does not occur in a text that lacks one of its characters. */
  lemma NotWithin(text: string, pattern: string, k: nat)
    requires k < |pattern| && pattern[k] !in text
    ensures !Contains(text, pattern)
  {
    if at :| 0 <= at <= |text| && OccursAt(text, pattern, at) {
      OccursMember(text, pattern, at, k);
      assert false;
    }
  }

  lemma SetCookieExported(headers: Headers)
    requires Har.LowerNames(headers)
    ensures Har.Get(Har.Kept(RedactHeaders(headers)), "set-cookie") in {None, Some(REDACTED)}
  {
    SetCookieIsSensitive();
    Har.CookiesAreKept();
    GetExported(headers, "set-cookie");
  }

  lemma OnePairHides(w: string, s: string)
    requires !Contains(w, s) && s != ""
    ensures !InPairs([(w, "")], s) && !InPairs([], s)
  {
    assert !Contains("", s);
  }

  lemma CookiesAreHidden(r: Har.ResponseContext, s: string)
    requires Har.LowerNames(r.headers) && !Contains(REDACTED, s) && s != ""
    ensures !InPairs(Har.ResponseCookies(Har.Kept(RedactHeaders(r.headers))), s)
  {
    SetCookieExported(r.headers);
    MarkerCookie();
    OnePairHides(REDACTED, s);
  }

  lemma MarkerCookie()
    ensures Har.Cookies([Har.UpTo(REDACTED, ';')]) == [(REDACTED, "")]
  {
    assert ';' !in REDACTED && '=' !in REDACTED && REDACTED[0] == '[' && REDACTED[9] == ']';
    OneWordCookie(REDACTED);
  }

  lemma OneWordCookie(w: string)
    requires w != "" && Trimmed(w) && ';' !in w && '=' !in w
    ensures Har.Cookies([Har.UpTo(w, ';')]) == [(w, "")]
  {
    Har.UpToPlain(w, ';');
    Har.UpToPlain(w, '=');
    Har.FromPlain(w, '=');
    TrimFixed(w);
    TrimFixed("");
    assert [w][1..] == [];
    assert [(w, "")] + [] == [(w, "")];
  }

  /** What the exporter adds in words of its own: the status text, the protocol label and
      the content type of a response that has none. */
  predicate OwnWords(r: Har.ResponseContext, proto: string, s: string) {
    || Contains(Har.StatusText(r.status), s) || Contains(proto, s)
    || (Har.Get(r.headers, "content-type").None? && Contains("text/plain", s))
  }

  /** The body is written in base64, and that form of its redacted text holds `s`. */
  predicate InEncoding(c: Har.Codec, rd: Reader, values: seq<string>, r: Har.ResponseContext, s: string) {
    Har.IsBinary(Har.ResponseMime(r)) && Contains(c.encode64(c.utf8(RedactedText(c, rd, values, r.body))), s)
  }

  predicate InBase64(ch: char) {
    'A' <= ch <= 'Z' || 'a' <= ch <= 'z' || '0' <= ch <= '9' || ch in {'+', '/', '='}
  }

  /** A secret with a character that base64 does not use cannot come back that way. */
  lemma NeverInEncoding(c: Har.Codec, rd: Reader, values: seq<string>, r: Har.ResponseContext, s: string, k: nat)
    requires forall b: Har.Bytes, ch :: ch in c.encode64(b) ==> InBase64(ch)
    requires k < |s| && !InBase64(s[k])
    ensures !InEncoding(c, rd, values, r, s)
  {
    NotWithin(c.encode64(c.utf8(RedactedText(c, rd, values, r.body))), s, k);
  }

  lemma SameMime(c: Har.Codec, rd: Reader, values: seq<string>, r: Har.ResponseContext)
    requires Har.LowerNames(r.headers)
    ensures Har.Get(Redacted(c, rd, values, r).headers, "content-type") == Har.Get(r.headers, "content-type")
  {
    ContentTypeIsPlain();
    Har.ContentTypeIsKept();
    GetExported(r.headers, "content-type");
  }

  /** The exported body holds such a secret exactly when it is written in base64 and this
      form of the redacted text happens to hold it. */
  lemma SecretInBodyOnlyEncoded(c: Har.Codec, rd: Reader, headers: Headers, body: string, values: seq<string>,
                                r: Har.ResponseContext, proto: string, s: string)
    requires Har.Laws(c) && Har.LowerNames(r.headers)
    requires SameValues(values, SensitiveValues(rd, headers, body))
    requires Secret(rd, headers, body, s) && Utf8Len(s) >= 4 && NoClash(s)
    ensures InBody(ExportResponse(c, rd, values, r, proto), s) <==> InEncoding(c, rd, values, r, s)
  {
    var text := RedactedText(c, rd, values, r.body);
    SecretNotInText(c, rd, headers, body, values, r.body, s);
    SameMime(c, rd, values, r);
    BodyOfExport(c, rd, values, r, proto);
    assert c.lossy(c.utf8(text)) == text && !Contains("", s);
  }

  lemma BodyOfExport(c: Har.Codec, rd: Reader, values: seq<string>, r: Har.ResponseContext, proto: string)
    requires Har.Laws(c) && Har.LowerNames(r.headers)
    ensures var bytes := c.utf8(RedactedText(c, rd, values, r.body));
            ExportResponse(c, rd, values, r, proto).content.text ==
            if bytes == [] then None
            else Some(if Har.IsBinary(Har.ResponseMime(r)) then c.encode64(bytes) else c.lossy(bytes))
  {
    SameMime(c, rd, values, r);
  }

  lemma FoundIsShown(headers: Headers, key: string, s: string)
    ensures Har.Get(headers, key).Some? && Contains(Har.Get(headers, key).value, s) ==> InPairs(headers, s)
  {
    FoundIsMember(headers, key);
  }

  /** A secret of the request that has at least 4 bytes and cannot overlap the marker is
      reflected by an exported response exactly when an exported header shows it, or the
      base64 form of the body holds it, or it is among the exporter's own words. */
  lemma SecretReflectedExactly(c: Har.Codec, rd: Reader, headers: Headers, body: string, values: seq<string>,
                               r: Har.ResponseContext, proto: string, s: string)
    requires Har.Laws(c) && Har.LowerNames(r.headers)
    requires SameValues(values, SensitiveValues(rd, headers, body))
    requires Secret(rd, headers, body, s) && Utf8Len(s) >= 4 && NoClash(s)
    ensures Reflects(ExportResponse(c, rd, values, r, proto), s) <==>
            AnyShows(r.headers, s) || InEncoding(c, rd, values, r, s) || OwnWords(r, proto, s)
  {
    var kept := Har.Kept(RedactHeaders(r.headers));
    assert s != "" && !Contains("", s);
    SecretInBodyOnlyEncoded(c, rd, headers, body, values, r, proto, s);
    HeadersShow(r.headers, s);
    NotTheMarker(s);
    CookiesAreHidden(r, s);
    SameMime(c, rd, values, r);
    KeptTwice(RedactHeaders(r.headers));
    FoundIsShown(kept, "location", s);
    FoundIsShown(kept, "content-type", s);
  }

  /** So under a content type that is not binary, headers are the only way for a secret
      that is not among the exporter's own words. */
  lemma SecretReflectedOnlyByHeaders(c: Har.Codec, rd: Reader, headers: Headers, body: string, values: seq<string>,
                                     r: Har.ResponseContext, proto: string, s: string)
    requires Har.Laws(c) && Har.LowerNames(r.headers)
    requires SameValues(values, SensitiveValues(rd, headers, body))
    requires Secret(rd, headers, body, s) && Utf8Len(s) >= 4 && NoClash(s)
    requires !Har.IsBinary(Har.ResponseMime(r)) && !OwnWords(r, proto, s)
    ensures Reflects(ExportResponse(c, rd, values, r, proto), s) <==> AnyShows(r.headers, s)
  {
    SecretReflectedExactly(c, rd, headers, body, values, r, proto, s);
  }

  // ----- both other ways are taken -----

  /** A token that the response echoes under an insensitive name. */
  lemma EchoedSecretIsExported(c: Har.Codec, rd: Reader, values: seq<string>, r: Har.ResponseContext,
                               proto: string, s: string)
    requires r.headers == [("x-echo", s)]
    ensures Reflects(ExportResponse(c, rd, values, r, proto), s)
  {
    var headers := r.headers;
    EchoIsPlain();
    HoldsItself(s);
    assert RedactHeaders(headers) == headers;
    KeptMembers(headers, headers[0]);
    KeptTwice(headers);
    assert headers[0] in ExportResponse(c, rd, values, r, proto).headers;
  }

  const ECHO_FORM := "password=QUJD"
  const PNG: (string, string) := ("content-type", "image/png")

  /** A password that is the base64 form of the response's body: known, shown by no header
      and not in the redacted text, it is exported once the body is encoded. */
  lemma EncodedSecretIsExported(c: Har.Codec, rd: Reader, values: seq<string>, r: Har.ResponseContext, proto: string)
    requires Har.Laws(c) && c.encode64(c.utf8("ABC")) == "QUJD"
    requires rd.parse(ECHO_FORM) == rd.parse("ABC") == None
    requires SameValues(values, SensitiveValues(rd, [], ECHO_FORM))
    requires r.headers == [PNG] && r.body == c.utf8("ABC")
    ensures Secret(rd, [], ECHO_FORM, "QUJD") && "QUJD" in values && !AnyShows(r.headers, "QUJD")
    ensures InBody(ExportResponse(c, rd, values, r, proto), "QUJD")
  {
    EchoFormCollected(rd, values);
    PlainBody(rd);
    Untouched("ABC", values);
    PngBody(c, rd, values, r, proto);
    PngShowsNothing();
    HoldsItself("QUJD");
  }

  lemma HoldsItself(s: string)
    ensures Contains(s, s)
  {
    assert OccursAt(s, s, 0);
  }

  lemma PngShowsNothing()
    ensures !AnyShows([PNG], "QUJD")
  {
    NotWithin(PNG.0, "QUJD", 0);
    NotWithin(PNG.1, "QUJD", 0);
  }

  lemma EchoFormCollected(rd: Reader, values: seq<string>)
    requires rd.parse(ECHO_FORM) == None && SameValues(values, SensitiveValues(rd, [], ECHO_FORM))
    ensures Secret(rd, [], ECHO_FORM, "QUJD")
    ensures forall v :: v in values <==> v == "QUJD"
  {
    EchoFormParts();
    assert Utf8Len("QUJD") == 4;
    OnePairSecret(rd, ECHO_FORM, "QUJD", "QUJD");
    CollectedExactly(rd, [], ECHO_FORM, "QUJD");
    forall v | v in values ensures v == "QUJD" {
      CollectedExactly(rd, [], ECHO_FORM, v);
      OnePairSecret(rd, ECHO_FORM, "QUJD", v);
    }
  }

  lemma PngBody(c: Har.Codec, rd: Reader, values: seq<string>, r: Har.ResponseContext, proto: string)
    requires Har.Laws(c) && c.encode64(c.utf8("ABC")) == "QUJD"
    requires RedactBody(rd, "ABC") == "ABC" == RedactKnownValues("ABC", values)
    requires r.headers == [PNG] && r.body == c.utf8("ABC")
    ensures ExportResponse(c, rd, values, r, proto).content.text == Some("QUJD")
  {
    assert c.lossy(r.body) == "ABC";
    assert c.encode64([]) == "";
    PngIsBinary(r);
    BodyOfExport(c, rd, values, r, proto);
  }

  lemma EchoFormParts()
    ensures Split(ECHO_FORM, Separator(ECHO_FORM)) == [ECHO_FORM] && Trim(ECHO_FORM) != ""
    ensures HidesValue(ECHO_FORM) && ValueOf(ECHO_FORM) == "QUJD" == Trim("QUJD")
  {
    PasswordIsSensitive();
    assert ECHO_FORM == "password" + "=" + "QUJD";
    OnePair("password", "QUJD");
  }

  lemma PasswordIsSensitive()
    ensures IsSensitiveKey("password")
  {
    TrimFixed("password");
    assert Lower("password") == "password" && Underscored("password") == "password";
  }

  lemma OnePair(key: string, v: string)
    requires IsSensitiveKey(key) && '=' !in key && key != "" && Trimmed(key + "=" + v) && Trimmed(v)
    requires forall c :: c in key + v ==> c !in {'&', '\n'}
    ensures var form := key + "=" + v;
            && Split(form, Separator(form)) == [form] && Trim(form) == form
            && HidesValue(form) && ValueOf(form) == v == Trim(v)
  {
    var form := key + "=" + v;
    assert '&' !in form && '\n' !in form by {
      assert forall c :: c in form ==> c in key + v || c == '=';
    }
    SplitPlain(form, Separator(form));
    TrimFixed(form);
    TrimFixed(v);
    assert form[..|key|] == key;
    KeyEndUnique(form, |key|);
  }

  /** The only secret of a form with one sensitive pair. */
  lemma OnePairSecret(rd: Reader, form: string, v: string, s: string)
    requires rd.parse(form) == None && Split(form, Separator(form)) == [form] && Trim(form) != ""
    requires HidesValue(form) && Trim(ValueOf(form)) == v
    ensures Secret(rd, [], form, s) <==> s == v
  {
    assert form in [form];
  }

  lemma PlainBody(rd: Reader)
    requires rd.parse("ABC") == None
    ensures RedactBody(rd, "ABC") == "ABC"
  {
    var c := Separator("ABC");
    SplitPlain("ABC", c);
    assert RedactParts(["ABC"]) == ["ABC"];
  }

  lemma {:induction false} Untouched(text: string, values: seq<string>)
    requires forall v :: v in values ==> |v| > |text|
    ensures RedactKnownValues(text, values) == text
  {
    if values != [] {
      Replacing.ReplaceNothing(text, values[0], REDACTED);
      Untouched(text, values[1..]);
    }
  }

  lemma ImagesAreBinary(mime: string)
    requires StartsWith(mime, "image/") && Trimmed(mime) && ';' !in mime
    ensures Har.IsBinary(mime)
  {
    Har.UpToPlain(mime, ';');
    TrimFixed(mime);
  }

  lemma PngIsBinary(r: Har.ResponseContext)
    requires r.headers == [PNG]
    ensures Har.LowerNames(r.headers) && Har.IsBinary(Har.ResponseMime(r))
  {
    assert Lower("content-type") == "content-type";
    assert "image/png"[..6] == "image/";
    ImagesAreBinary("image/png");
  }

  lemma EchoIsPlain()
    ensures !IsSensitiveKey("x-echo") && !Har.SkipsHar("x-echo")
  {
    TrimFixed("x-echo");
    assert Lower("x-echo") == "x-echo" && Underscored("x-echo") == "x_echo";
    assert "x_echo"[0..6] == "x_echo" && "x_echo"[0] != "secret"[0] && "x_echo"[0] != "_token"[0];
    assert "x-echo"[2] == 'e' && "x-oproxy-"[2] == 'o';
  }

  /** A value inside an object is judged by its own key alone: what stands one level
      below a sensitive key is redacted in place, but is not a known value. */
  lemma NestedValueNotCollected(rd: Reader, outer: string, inner: string, s: string)
    requires IsSensitiveKey(outer) && !IsSensitiveKey(inner)
    ensures var v := Obj([Field(outer, Obj([Field(inner, Str(s))]))]);
            RedactJson(v) == Obj([Field(outer, Str(REDACTED))]) && CollectJson(rd, v, "") == []
  {
    var leaf := [Field(inner, Str(s))];
    var fields := [Field(outer, Obj(leaf))];
    assert leaf[..0] == [] && fields[..0] == [] && fields[1..] == [];
    assert CollectFields(rd, leaf) == [] + CollectJson(rd, Str(s), inner) == [];
    assert CollectFields(rd, fields) == [] + CollectJson(rd, Obj(leaf), outer);
  }
}
