/** How the curl import reads the parts of a raw curl export: the first line, the header
    lines and the data line. */
module CurlRoundTrip {
  import opened Options
  import opened Text
  import opened Replacing
  import opened Curl
  import opened Counting
  import opened CurlTokens
  import opened CurlHeaders

  // ----- what the import must give back -----

  ghost predicate GivesBack(r: Result<Parsed>, req: Request) {
    && r.Ok? && r.value.verb == req.verb && r.value.url == req.uri && r.value.body == req.body
    && Matches(r.value.headers, Replayable(req.headers))
  }

  /** Exporting and importing again gives back the request. */
  ghost predicate RoundTrips(req: Request, validUrl: string -> bool) {
    GivesBack(Parse(CurlText(req), validUrl), req)
  }

  /** What the URL parser's verdict is known to imply: an absolute http(s) URL
      starts, after blanks, with its scheme. */
  ghost predicate UrlLaw(validUrl: string -> bool) {
    forall u :: validUrl(u) ==> u != "" && u[0] != '-' && u[0] != '\''
  }

  predicate QuoteFree(s: string) { '\'' !in s }

  ghost predicate QuoteFreeHeaders(hs: seq<(string, string)>) {
    forall h :: h in hs ==> QuoteFree(h.0) && QuoteFree(h.1)
  }

  // ----- the tokens of an exported request -----

  function HeaderTokens(hs: seq<(string, string)>): seq<string> {
    if hs == [] then [] else ["-H", Normalise(HeaderValue(hs[0]))] + HeaderTokens(hs[1..])
  }

  lemma EscapePlain(s: string)
    requires QuoteFree(s)
    ensures Escape(s) == s
  {
    forall at | 0 <= at <= |s| ensures !OccursAt(s, "'", at) {
      assert at < |s| ==> s[at..at + 1] == [s[at]];
    }
    ReplaceNothing(s, "'", "'\\''");
  }

  lemma AfterAfter(a: seq<string>, b: seq<string>, r: Result<seq<string>>)
    ensures After(a, After(b, r)) == After(a + b, r)
  {
    if r.Ok? { assert a + (b + r.value) == a + b + r.value; }
  }

  lemma {:induction false} TokensOfHeaders(hs: seq<(string, string)>, rest: string)
    requires QuoteFreeHeaders(hs)
    ensures Tokens(Normalise(HeaderLines(hs) + rest)) == After(HeaderTokens(hs), Tokens(Normalise(rest)))
  {
    if hs == [] {
      assert HeaderLines(hs) + rest == rest;
      assert Tokens(Normalise(rest)).Ok? ==> [] + Tokens(Normalise(rest)).value == Tokens(Normalise(rest)).value;
    } else {
      var h := hs[0];
      var v := HeaderValue(h);
      var more := HeaderLines(hs[1..]) + rest;
      assert h in hs;
      EscapePlain(h.1);
      QuotesNormalise(v);
      TokensOfLine("-H", v, more);
      assert HeaderLines(hs) + rest == SEPARATOR + "-H" + " '" + v + "'" + more by {
        HeaderLineShape(h, hs[1..], rest);
      }
      TokensOfHeaders(hs[1..], rest);
      AfterAfter(["-H", Normalise(v)], HeaderTokens(hs[1..]), Tokens(Normalise(rest)));
    }
  }

  lemma HeaderLineShape(h: (string, string), hs: seq<(string, string)>, rest: string)
    requires QuoteFree(h.1)
    ensures HeaderLines([h] + hs) + rest == SEPARATOR + "-H" + " '" + HeaderValue(h) + "'" + (HeaderLines(hs) + rest)
  {
    EscapePlain(h.1);
    assert ([h] + hs)[1..] == hs;
    assert HeaderPart(h) == "-H" + " '" + HeaderValue(h) + "'";
    assert SEPARATOR + ("-H" + " '" + HeaderValue(h) + "'") == SEPARATOR + "-H" + " '" + HeaderValue(h) + "'";
  }

  predicate PlainWord(w: string) {
    && w != "" && ' ' !in w && '\t' !in w && '\\' !in w
    && !IsWhitespace(w[0]) && w[0] != '\'' && w[0] != '"'
  }

  lemma VerbIsWord(verb: string)
    requires ValidVerb(verb) && verb[0] != '\''
    ensures PlainWord(verb)
  {
    assert !TokenChar(' ') && !TokenChar('\t') && !TokenChar('\\');
    assert verb[0] in verb;
  }

  lemma TokensWordThen(w: string, rest: string)
    requires PlainWord(w)
    ensures Tokens(w + (" " + rest)) == Prepend(w, Tokens(rest))
  {
    TokensWord(w, " " + rest);
    TokensSpace(rest);
  }

  lemma FirstTokens(verb: string, u: string, r: string)
    requires PlainWord(verb) && QuoteFree(u)
    ensures Tokens("curl" + (" " + ("-X" + (" " + (verb + (" " + ("'" + u + "'" + r))))))) ==
            Prepend("curl", Prepend("-X", Prepend(verb, Prepend(u, Tokens(r)))))
  {
    var t0 := "'" + u + "'" + r;
    TokensQuoted(u, r);
    TokensWordThen(verb, t0);
    TokensWordThen("-X", verb + (" " + t0));
    TokensWordThen("curl", "-X" + (" " + (verb + (" " + t0))));
  }

  lemma PrependFour(a: string, b: string, c: string, d: string, r: Result<seq<string>>)
    ensures Prepend(a, Prepend(b, Prepend(c, Prepend(d, r)))) == After([a, b, c, d], r)
  {
    if r.Ok? { assert [a] + ([b] + ([c] + ([d] + r.value))) == [a, b, c, d] + r.value; }
  }

  lemma FirstLineShape(verb: string, t: string)
    ensures "curl -X " + verb + " " + t == "curl" + (" " + ("-X" + (" " + (verb + (" " + t)))))
  {
    assert "curl -X " == "curl" + " " + "-X" + " ";
  }

  lemma NormaliseFirst(verb: string, url: string, rest: string)
    requires '\\' !in verb
    ensures Normalise("curl -X " + verb + " '" + url + "'" + rest) ==
            "curl -X " + verb + " " + ("'" + Normalise(url) + "'" + Normalise(rest))
  {
    var before := "curl -X " + verb + " ";
    NormaliseNoBackslash(before);
    NormaliseQuoted(before, url, rest);
    QuoteShape("curl -X " + verb, url, rest);
    QuoteShape("curl -X " + verb, Normalise(url), Normalise(rest));
  }

  lemma QuoteShape(a: string, q: string, rest: string)
    ensures a + " '" + q + "'" + rest == (a + " ") + "'" + q + "'" + rest == a + " " + ("'" + q + "'" + rest)
  {}

  /** The first line up to the first closing quote after the URL. */
  lemma TokensOfFirst(verb: string, url: string, rest: string)
    requires PlainWord(verb) && QuoteFree(url)
    ensures Tokens(Normalise("curl -X " + verb + " '" + url + "'" + rest)) ==
            After(["curl", "-X", verb, Normalise(url)], Tokens(Normalise(rest)))
  {
    var u, r := Normalise(url), Normalise(rest);
    NormaliseFirst(verb, url, rest);
    QuotesNormalise(url);
    FirstTokens(verb, u, r);
    PrependFour("curl", "-X", verb, u, Tokens(r));
    FirstLineShape(verb, "'" + u + "'" + r);
  }

  // ----- the options of an exported request -----

  lemma {:induction false} AddAllFront(m: map<string, string>, h: Header, hs: seq<Header>)
    ensures AddAll(m, [h] + hs) == AddAll(AddHeader(m, Normalise(HeaderValue(h))), hs)
  {
    var all := [h] + hs;
    if hs == [] {
      assert all[..|all| - 1] == [];
    } else {
      var n := |hs| - 1;
      AddAllFront(m, h, hs[..n]);
      assert all[..|all| - 1] == [h] + hs[..n];
    }
  }

  lemma ReadFlag(flag: string, value: string, ts: seq<string>, out: Parsed)
    requires flag in {"-X", "-H", "--data"}
    ensures ReadOptions([flag, value] + ts, out) ==
            ReadOptions(ts, if flag == "-X" then out.(verb := value)
                            else if flag == "-H" then out.(headers := AddHeader(out.headers, value))
                            else out.(body := StripAt(value)))
  {
    var all := [flag, value] + ts;
    assert all[0] == flag && Next(all) == Some(value) && Drop(all, 2) == ts;
    assert "-X"[1] != "-H"[1] && "--data"[1] == '-';
  }

  lemma NotDataFlag(t: string)
    requires t != "" && t[0] != '-'
    ensures !IsDataFlag(t)
  {
    assert forall f :: f in {"-d", "--data", "--data-raw", "--data-binary", "--data-ascii"} ==> f[0] == '-';
  }

  lemma TurnUrl(t: string, next: Option<string>, out: Parsed)
    requires t != "" && t[0] != '-' && out.url == ""
    ensures Turn(t, next, out) == (out.(url := t), 1)
  {
    NotDataFlag(t);
    assert "-X"[0] == "--request"[0] == "-H"[0] == "--header"[0] == '-';
    assert "-G"[0] == "--get"[0] == "-I"[0] == "--head"[0] == '-';
  }

  lemma ReadUrl(url: string, ts: seq<string>, out: Parsed)
    requires url != "" && url[0] != '-' && out.url == ""
    ensures ReadOptions([url] + ts, out) == ReadOptions(ts, out.(url := url))
  {
    var all := [url] + ts;
    TurnUrl(url, Next(all), out);
    assert all[0] == url && Drop(all, 1) == ts;
  }

  lemma {:induction false} ReadHeaders(hs: seq<Header>, ts: seq<string>, out: Parsed)
    ensures ReadOptions(HeaderTokens(hs) + ts, out) == ReadOptions(ts, out.(headers := AddAll(out.headers, hs)))
  {
    if hs == [] {
      assert HeaderTokens(hs) + ts == ts;
    } else {
      var t := Normalise(HeaderValue(hs[0]));
      var rest := HeaderTokens(hs[1..]) + ts;
      assert HeaderTokens(hs) + ts == ["-H", t] + rest;
      ReadFlag("-H", t, rest, out);
      ReadHeaders(hs[1..], ts, out.(headers := AddHeader(out.headers, t)));
      AddAllFront(out.headers, hs[0], hs[1..]);
      assert hs == [hs[0]] + hs[1..];
    }
  }

  lemma {:induction false} UrlStays(ts: seq<string>, out: Parsed)
    requires out.url != ""
    ensures ReadOptions(ts, out).url == out.url
    decreases |ts|
  {
    if ts != [] {
      var (out', n) := Turn(ts[0], Next(ts), out);
      UrlStays(Drop(ts, n), out');
    }
  }

  // ----- a body read later has lost a dash -----

  ghost function CountAll(ts: seq<string>, cs: set<char>): nat {
    if ts == [] then 0 else Count(ts[0], cs) + CountAll(ts[1..], cs)
  }

  lemma {:induction false} CountSingleQuoted(s: string, cs: set<char>)
    ensures SingleQuoted(s).Some? ==>
              Count(SingleQuoted(s).value.0, cs) + Count(SingleQuoted(s).value.1, cs) <= Count(s, cs)
  {
    if s != "" && s[0] != '\'' {
      CountSingleQuoted(s[1..], cs);
      if SingleQuoted(s[1..]).Some? {
        CountAppend([s[0]], SingleQuoted(s[1..]).value.0, cs);
        CountAppend([s[0]], s[1..], cs);
        assert s == [s[0]] + s[1..];
      }
    }
  }

  lemma CountTwo(s: string, cs: set<char>)
    requires |s| >= 2
    ensures Count(s, cs) == Count([s[0]], cs) + Count([s[1]], cs) + Count(s[2..], cs)
  {
    CountAppend([s[0]], [s[1]], cs);
    CountAppend([s[0]] + [s[1]], s[2..], cs);
    assert s == [s[0]] + [s[1]] + s[2..];
  }

  lemma {:induction false} CountDoubleQuoted(s: string, cs: set<char>)
    requires ('\n' in cs ==> 'n' in cs) && ('\t' in cs ==> 't' in cs)
    ensures DoubleQuoted(s).Some? ==>
              Count(DoubleQuoted(s).value.0, cs) + Count(DoubleQuoted(s).value.1, cs) <= Count(s, cs)
  {
    if s != "" && s[0] != '"' {
      if s[0] == '\\' && |s| >= 2 {
        CountDoubleQuoted(s[2..], cs);
        CountTwo(s, cs);
        if DoubleQuoted(s[2..]).Some? {
          CountAppend([Unescape(s[1])], DoubleQuoted(s[2..]).value.0, cs);
        }
      } else {
        CountDoubleQuoted(s[1..], cs);
        if DoubleQuoted(s[1..]).Some? {
          CountAppend([s[0]], DoubleQuoted(s[1..]).value.0, cs);
          CountAppend([s[0]], s[1..], cs);
          assert s == [s[0]] + s[1..];
        }
      }
    }
  }

  lemma {:induction false} CountWord(s: string, cs: set<char>)
    ensures Count(Word(s).0, cs) + Count(Word(s).1, cs) == Count(s, cs)
  {
    if !EndsWord(s) {
      CountWord(s[1..], cs);
      CountAppend([s[0]], Word(s[1..]).0, cs);
    }
  }

  lemma CountPrepend(tok: string, ts: seq<string>, cs: set<char>)
    ensures CountAll([tok] + ts, cs) == Count(tok, cs) + CountAll(ts, cs)
  {
    assert ([tok] + ts)[1..] == ts;
  }

  /** Tokens hold no more characters of a kind than the text they were read from; an escaped
      n or t may have become a line end or a tab. */
  lemma {:induction false} CountTokens(s: string, cs: set<char>)
    requires ('\n' in cs ==> 'n' in cs) && ('\t' in cs ==> 't' in cs)
    ensures Tokens(s).Ok? ==> CountAll(Tokens(s).value, cs) <= Count(s, cs)
    decreases |s|
  {
    if s == "" {
    } else if IsWhitespace(s[0]) {
      CountTokens(s[1..], cs);
    } else if s[0] == '\'' {
      CountSingleQuoted(s[1..], cs);
      SingleQuotedShrinks(s[1..]);
      if SingleQuoted(s[1..]).Some? {
        var (tok, rest) := SingleQuoted(s[1..]).value;
        CountTokens(rest, cs);
        if Tokens(rest).Ok? { CountPrepend(tok, Tokens(rest).value, cs); }
      }
    } else if s[0] == '"' {
      CountDoubleQuoted(s[1..], cs);
      DoubleQuotedShrinks(s[1..]);
      if DoubleQuoted(s[1..]).Some? {
        var (tok, rest) := DoubleQuoted(s[1..]).value;
        CountTokens(rest, cs);
        if Tokens(rest).Ok? { CountPrepend(tok, Tokens(rest).value, cs); }
      }
    } else {
      var (tok, rest) := Word(s);
      CountWord(s, cs);
      WordShrinks(s);
      CountTokens(rest, cs);
      if Tokens(rest).Ok? { CountPrepend(tok, Tokens(rest).value, cs); }
    }
  }

  lemma {:induction false} CountStripAt(s: string, cs: set<char>)
    requires '@' !in cs
    ensures Count(StripAt(s), cs) == Count(s, cs)
  {
    if s != "" && s[0] == '@' { CountStripAt(s[1..], cs); }
  }

  lemma {:induction false} CountDrop(ts: seq<string>, n: nat, cs: set<char>)
    ensures CountAll(Drop(ts, n), cs) <= CountAll(ts, cs)
  {
    if 0 < n <= |ts| {
      CountDrop(ts[1..], n - 1, cs);
      assert Drop(ts, n) == Drop(ts[1..], n - 1);
    }
  }

  /** A body set by the remaining options has fewer dashes than those options. */
  lemma {:induction false} LaterBody(ts: seq<string>, out: Parsed)
    ensures ReadOptions(ts, out).body == out.body || Count(ReadOptions(ts, out).body, {'-'}) < CountAll(ts, {'-'})
    decreases |ts|
  {
    if ts != [] {
      var (out', n) := Turn(ts[0], Next(ts), out);
      LaterBody(Drop(ts, n), out');
      CountDrop(ts, n, {'-'});
      if IsDataFlag(ts[0]) && |ts| > 1 { DataValueCost(ts); } else { BodyStays(ts, out); }
    }
  }

  lemma BodyStays(ts: seq<string>, out: Parsed)
    requires ts != [] && !(IsDataFlag(ts[0]) && |ts| > 1)
    ensures Turn(ts[0], Next(ts), out).0.body == out.body
  {}

  /** The flag in front of a body has a dash of its own. */
  lemma DataValueCost(ts: seq<string>)
    requires |ts| > 1 && IsDataFlag(ts[0])
    ensures Count(StripAt(ts[1]), {'-'}) < CountAll(ts, {'-'})
  {
    assert ts[0][0] == '-';
    CountStripAt(ts[1], {'-'});
    assert CountAll(ts[1..], {'-'}) == Count(ts[1], {'-'}) + CountAll(ts[1..][1..], {'-'});
  }

  // ----- the whole text -----

  predicate EndsInQuote(s: string) { s != "" && s[|s| - 1] == '\'' }

  lemma {:induction false} LinesEndInQuote(hs: seq<Header>)
    ensures HeaderLines(hs) == "" || EndsInQuote(HeaderLines(hs))
  {
    if hs != [] {
      LinesEndInQuote(hs[1..]);
      assert EndsInQuote(HeaderPart(hs[0]));
    }
  }

  lemma TextIsTrimmed(req: Request)
    ensures Trim(CurlText(req)) == CurlText(req)
  {
    var text := CurlText(req);
    LinesEndInQuote(Replayable(req.headers));
    assert EndsInQuote(FirstPart(req)) && EndsInQuote(DataPart(req.body));
    assert EndsInQuote(text);
    assert FirstPart(req)[0] == 'c' && text[0] == 'c';
    TrimFixed(text);
  }

  lemma {:induction false} BaseNamePlain(s: string)
    requires '/' !in s
    ensures BaseName(s) == s
  {
    if s != "" {
      BaseNamePlain(s[..|s| - 1]);
      assert s == s[..|s| - 1] + [s[|s| - 1]];
    }
  }

  lemma ParseFirstTokens(verb: string, u: string, ts: seq<string>, validUrl: string -> bool)
    requires u != "" && u[0] != '-'
    ensures ParseTokens(["curl", "-X", verb, u] + ts, validUrl) ==
            Check(ReadOptions(ts, EMPTY.(verb := verb, url := u)), validUrl)
  {
    var all := ["curl", "-X", verb, u] + ts;
    BaseNamePlain("curl");
    assert all[1..] == ["-X", verb] + ([u] + ts);
    ReadFlag("-X", verb, [u] + ts, EMPTY);
    ReadUrl(u, ts, EMPTY.(verb := verb));
  }

  /** Parsing any export whose first quoted stretch is `url`. */
  lemma ParseAfterUrl(req: Request, url: string, rest: string, validUrl: string -> bool)
    requires PlainWord(req.verb) && QuoteFree(url)
    requires CurlText(req) == "curl -X " + req.verb + " '" + url + "'" + rest
    requires Normalise(url) != "" && Normalise(url)[0] != '-'
    ensures var ts := Tokens(Normalise(rest));
            Parse(CurlText(req), validUrl) ==
            if ts.Ok? then Check(ReadOptions(ts.value, EMPTY.(verb := req.verb, url := Normalise(url))), validUrl)
            else Err(ts.error)
  {
    TextIsTrimmed(req);
    TokensOfFirst(req.verb, url, rest);
    if Tokens(Normalise(rest)).Ok? {
      ParseFirstTokens(req.verb, Normalise(url), Tokens(Normalise(rest)).value, validUrl);
    }
  }

  /** Normalising keeps the first character or makes it a space. */
  lemma NormaliseFirstChar(s: string)
    requires s != ""
    ensures Normalise(s) != "" && (Normalise(s)[0] == s[0] || Normalise(s)[0] == ' ')
  {
    var t := Replace(s, LF, " ");
    assert t != "" && (t[0] == s[0] || t[0] == ' ');
  }

  lemma FirstLine(req: Request)
    ensures CurlText(req) ==
            "curl -X " + req.verb + " '" + req.uri + "'" + (HeaderLines(Replayable(req.headers)) + DataLine(req.body))
  {}

  lemma SplitAtQuote(s: string) returns (p: string, q: string)
    requires !QuoteFree(s)
    ensures s == p + "'" + q && QuoteFree(p)
  {
    if s[0] == '\'' {
      p, q := "", s[1..];
    } else {
      assert s == [s[0]] + s[1..];
      p, q := SplitAtQuote(s[1..]);
      p := [s[0]] + p;
    }
  }

  /** The exporter does not escape the URL, so a quote in it ends it early. */
  lemma UrlEndsEarly(req: Request, validUrl: string -> bool)
    requires UrlLaw(validUrl) && PlainWord(req.verb) && !QuoteFree(req.uri)
    ensures !RoundTrips(req, validUrl)
  {
    if validUrl(req.uri) {
      var p, q := SplitAtQuote(req.uri);
      var lines := HeaderLines(Replayable(req.headers)) + DataLine(req.body);
      FirstLine(req);
      UrlShape(req.verb, p, q, lines);
      assert p != "" && p[0] == req.uri[0];
      NormaliseFirstChar(p);
      ParseAfterUrl(req, p, q + "'" + lines, validUrl);
      QuotesNormalise(p);
      var ts := Tokens(Normalise(q + "'" + lines));
      if ts.Ok? { UrlStays(ts.value, EMPTY.(verb := req.verb, url := Normalise(p))); }
    }
  }

  lemma UrlShape(verb: string, p: string, q: string, lines: string)
    ensures "curl -X " + verb + " '" + (p + "'" + q) + "'" + lines ==
            "curl -X " + verb + " '" + p + "'" + (q + "'" + lines)
  {}

  // ----- the body -----

  /** The state once the URL and the headers have been read. */
  function BeforeBody(req: Request): Parsed {
    Parsed(req.verb, Normalise(req.uri), AddAll(map[], Replayable(req.headers)), "")
  }

  /** What the data line contributes: the tokens after the headers. */
  lemma ParseToBody(req: Request, validUrl: string -> bool)
    requires PlainWord(req.verb) && QuoteFree(req.uri) && QuoteFreeHeaders(Replayable(req.headers))
    requires req.uri != "" && req.uri[0] != '-'
    ensures var ts := Tokens(Normalise(DataLine(req.body)));
            Parse(CurlText(req), validUrl) ==
            if ts.Ok? then Check(ReadOptions(ts.value, BeforeBody(req)), validUrl) else Err(ts.error)
  {
    var hs, data := Replayable(req.headers), DataLine(req.body);
    FirstLine(req);
    NormaliseFirstChar(req.uri);
    ParseAfterUrl(req, req.uri, HeaderLines(hs) + data, validUrl);
    TokensOfHeaders(hs, data);
    if Tokens(Normalise(data)).Ok? {
      ReadHeaders(hs, Tokens(Normalise(data)).value, EMPTY.(verb := req.verb, url := Normalise(req.uri)));
    }
  }

  lemma NoTokens()
    ensures Tokens(Normalise("")) == Ok([])
  {
    NormaliseNoBackslash("");
  }

  /** A quote-free body is one token, read back up to normalising and '@'. */
  lemma PlainBody(body: string, out: Parsed)
    requires QuoteFree(body) && out.body == ""
    ensures var ts := Tokens(Normalise(DataLine(body)));
            ts.Ok? && ReadOptions(ts.value, out) == out.(body := StripAt(Normalise(body)))
  {
    NoTokens();
    if body == "" {
      NormaliseNoBackslash("");
    } else {
      EscapePlain(body);
      QuotesNormalise(body);
      TokensOfLine("--data", body, "");
      DataLineShape(body, "");
      ReadFlag("--data", Normalise(body), [], out);
      assert ["--data", Normalise(body)] + [] == ["--data", Normalise(body)];
    }
  }

  lemma DataLineShape(inner: string, rest: string)
    ensures SEPARATOR + ("--data '" + (inner + rest) + "'") == SEPARATOR + "--data" + " '" + inner + (rest + "'")
    ensures SEPARATOR + "--data" + " '" + inner + "'" + "" == SEPARATOR + "--data" + " '" + inner + ("" + "'")
    ensures inner + "" == inner
  {}

  lemma {:induction false} EscapeAtQuote(p: string, q: string)
    requires QuoteFree(p)
    ensures Escape(p + "'" + q) == p + "'\\''" + Escape(q)
  {
    var s := p + "'" + q;
    if p == "" {
      assert s[..1] == "'" && s[1..] == q;
    } else {
      assert s[1..] == p[1..] + "'" + q && s[..1] == [p[0]];
      assert [p[0]][0] != "'"[0];
      EscapeAtQuote(p[1..], q);
      assert [s[0]] + (p[1..] + "'\\''" + Escape(q)) == p + "'\\''" + Escape(q);
    }
  }

  lemma QuotedDataRead(p: string, q: string, out: Parsed)
    requires QuoteFree(p)
    ensures var ts, later := Tokens(Normalise(SEPARATOR + ("--data '" + Escape(p + "'" + q) + "'"))),
                             Tokens(Normalise("\\''" + Escape(q) + "'"));
            && (ts.Ok? ==> later.Ok?)
            && (ts.Ok? ==> ReadOptions(ts.value, out) ==
                           ReadOptions(later.value, out.(body := StripAt(Normalise(p)))))
  {
    EscapeAtQuote(p, q);
    QuotedDataShape(p, Escape(q));
    QuotesNormalise(p);
    TokensOfLine("--data", p, "\\''" + Escape(q) + "'");
    var later := Tokens(Normalise("\\''" + Escape(q) + "'"));
    if later.Ok? { ReadFlag("--data", Normalise(p), later.value, out); }
  }

  /** With a quote in the body, the data token ends there; whatever is read later
      is not the body either. */
  lemma QuotedBodyFails(body: string, out: Parsed)
    requires !QuoteFree(body) && out.body == ""
    ensures var ts := Tokens(Normalise(DataLine(body)));
            ts.Ok? ==> ReadOptions(ts.value, out).body != body
  {
    var p, q := SplitAtQuote(body);
    var rest := "\\''" + Escape(q) + "'";
    QuotedDataRead(p, q, out);
    QuotesNormalise(p);
    var later := Tokens(Normalise(rest));
    if later.Ok? {
      StripAtQuotes(Normalise(p));
      LaterBody(later.value, out.(body := StripAt(Normalise(p))));
      CountTokens(Normalise(rest), {'-'});
      CountNormalise(rest, {'-'});
      DashesAfterQuote(p, q);
    }
  }

  lemma QuotedDataShape(p: string, q: string)
    ensures SEPARATOR + ("--data '" + (p + "'\\''" + q) + "'") ==
            SEPARATOR + "--data" + " '" + p + "'" + ("\\''" + q + "'")
  {}

  lemma {:induction false} StripAtQuotes(s: string)
    requires QuoteFree(s)
    ensures QuoteFree(StripAt(s))
  {
    if s != "" && s[0] == '@' { StripAtQuotes(s[1..]); }
  }

  lemma DashesAfterQuote(p: string, q: string)
    ensures Count("\\''" + Escape(q) + "'", {'-'}) <= Count(p + "'" + q, {'-'})
  {
    CountMember("\\''", {'-'});
    CountMember("'\\''", {'-'});
    CountMember("'", {'-'});
    CountReplace(q, "'", "'\\''", {'-'});
    CountAppend("\\''", Escape(q), {'-'});
    CountAppend("\\''" + Escape(q), "'", {'-'});
    CountAppend(p + "'", q, {'-'});
  }

  lemma {:induction false} StripAtShape(s: string)
    ensures EndsWith(s, StripAt(s)) && !StartsWith(StripAt(s), "@")
    ensures !StartsWith(s, "@") ==> StripAt(s) == s
  {
    if s != "" && s[0] == '@' {
      StripAtShape(s[1..]);
      var t := StripAt(s);
      assert s[|s| - |t|..] == s[1..][|s| - 1 - |t|..];
    }
  }

  /** A body comes back through normalising and '@'-stripping exactly when neither
      finds anything to do. */
  lemma BodyReadBack(body: string)
    ensures StripAt(Normalise(body)) == body <==> Unbroken(body) && !StartsWith(body, "@")
  {
    var n := Normalise(body);
    StripAtShape(n);
    NormaliseFixed(body);
    NormalisedIsUnbroken(body);
    var t := StripAt(n);
    assert n == n[..|n| - |t|] + t;
    UnbrokenPart(n[..|n| - |t|], t);
  }
}
