/** The raw curl export and the curl import of src/export.rs. */
module Curl {
  import opened Options
  import opened Text

  /** A captured request; header names are lower case, in insertion order. The body
      is the text the exporter reads. */
  datatype Request = Request(verb: string, uri: string, headers: seq<(string, string)>, body: string)

  datatype Parsed = Parsed(verb: string, url: string, headers: map<string, string>, body: string)

  const SEPARATOR := " \\\n  "

  // ----- export -----

  predicate SkipsReplay(header: string) {
    var h := Lower(Trim(header));
    || h in {"host", "content-length", "connection", "keep-alive", "proxy-authenticate", "proxy-authorization",
             "proxy-connection", "te", "trailer", "transfer-encoding", "upgrade"}
    || StartsWith(h, "x-oproxy-")
  }

  /** The headers worth sending again, in order. */
  function Replayable(headers: seq<(string, string)>): seq<(string, string)> {
    if headers == [] then []
    else (if SkipsReplay(headers[0].0) then [] else [headers[0]]) + Replayable(headers[1..])
  }

  function Escape(s: string): string { Replace(s, "'", "'\\''") }

  function FirstPart(req: Request): string { "curl -X " + req.verb + " '" + req.uri + "'" }

  function HeaderPart(h: (string, string)): string { "-H '" + h.0 + ": " + Escape(h.1) + "'" }

  function DataPart(body: string): string { "--data '" + Escape(body) + "'" }

  /** Every further part goes on a continuation line. */
  function HeaderLines(hs: seq<(string, string)>): string {
    if hs == [] then "" else SEPARATOR + HeaderPart(hs[0]) + HeaderLines(hs[1..])
  }

  function DataLine(body: string): string {
    if body == "" then "" else SEPARATOR + DataPart(body)
  }

  function CurlText(req: Request): string {
    FirstPart(req) + HeaderLines(Replayable(req.headers)) + DataLine(req.body)
  }

  function JoinWith(parts: seq<string>, sep: string): string {
    if parts == [] then ""
    else if |parts| == 1 then parts[0]
    else parts[0] + sep + JoinWith(parts[1..], sep)
  }

  lemma {:induction false} JoinAppend(parts: seq<string>, sep: string, last: string)
    requires parts != []
    ensures JoinWith(parts + [last], sep) == JoinWith(parts, sep) + sep + last
  {
    if |parts| > 1 {
      JoinAppend(parts[1..], sep, last);
      assert (parts + [last])[1..] == parts[1..] + [last];
    } else {
      assert (parts + [last])[1..] == [last];
    }
  }

  lemma {:induction false} ReplayableAppend(hs: seq<(string, string)>, h: (string, string))
    ensures Replayable(hs + [h]) == Replayable(hs) + if SkipsReplay(h.0) then [] else [h]
  {
    var last := if SkipsReplay(h.0) then [] else [h];
    ReplayableFirst(hs + [h]);
    if hs == [] {
      assert (hs + [h])[1..] == [] && last + [] == [] + last;
    } else {
      ReplayableAppend(hs[1..], h);
      assert (hs + [h])[1..] == hs[1..] + [h];
      ReplayableFirst(hs);
      Reassociate(if SkipsReplay(hs[0].0) then [] else [hs[0]], Replayable(hs[1..]), last);
    }
  }

  lemma ReplayableFirst(hs: seq<(string, string)>)
    requires hs != []
    ensures Replayable(hs) == (if SkipsReplay(hs[0].0) then [] else [hs[0]]) + Replayable(hs[1..])
  {}

  lemma HeaderLinesFirst(hs: seq<(string, string)>)
    requires hs != []
    ensures HeaderLines(hs) == (SEPARATOR + HeaderPart(hs[0])) + HeaderLines(hs[1..])
  {}

  lemma {:induction false} HeaderLinesAppend(hs: seq<(string, string)>, h: (string, string))
    ensures HeaderLines(hs + [h]) == HeaderLines(hs) + (SEPARATOR + HeaderPart(h))
  {
    var all, line := hs + [h], SEPARATOR + HeaderPart(h);
    HeaderLinesFirst(all);
    if hs == [] {
      assert all[1..] == [] && line + "" == "" + line;
    } else {
      HeaderLinesAppend(hs[1..], h);
      assert all[1..] == hs[1..] + [h];
      HeaderLinesFirst(hs);
      Reassociate(SEPARATOR + HeaderPart(hs[0]), HeaderLines(hs[1..]), line);
    }
  }

  /** Pushing the part of one more header adds its line to the text. */
  lemma HeaderStep(first: string, hs: seq<(string, string)>, h: (string, string), parts: seq<string>)
    requires parts != [] && JoinWith(parts, SEPARATOR) == first + HeaderLines(Replayable(hs))
    ensures JoinWith(if SkipsReplay(h.0) then parts else parts + [HeaderPart(h)], SEPARATOR) ==
            first + HeaderLines(Replayable(hs + [h]))
  {
    var lines, part := HeaderLines(Replayable(hs)), HeaderPart(h);
    ReplayableAppend(hs, h);
    if SkipsReplay(h.0) {
      assert Replayable(hs) + [] == Replayable(hs);
    } else {
      JoinAppend(parts, SEPARATOR, part);
      HeaderLinesAppend(Replayable(hs), h);
      Reassociate(first + lines, SEPARATOR, part);
      Reassociate(first, lines, SEPARATOR + part);
    }
  }

  /** Pushing the data part adds the data line. */
  lemma DataStep(before: string, parts: seq<string>, body: string)
    requires parts != [] && JoinWith(parts, SEPARATOR) == before
    ensures JoinWith(if body != "" then parts + [DataPart(body)] else parts, SEPARATOR) == before + DataLine(body)
  {
    if body == "" {
      assert before + "" == before;
    } else {
      JoinAppend(parts, SEPARATOR, DataPart(body));
      Reassociate(before, SEPARATOR, DataPart(body));
    }
  }

  /** `export_as_curl_raw`: the parts are pushed one by one and joined. */
  method ExportAsCurlRaw(req: Request) returns (text: string)
    ensures text == CurlText(req)
  {
    var parts := [FirstPart(req)];
    for i := 0 to |req.headers|
      invariant parts != []
      invariant JoinWith(parts, SEPARATOR) == FirstPart(req) + HeaderLines(Replayable(req.headers[..i]))
    {
      var h := req.headers[i];
      HeaderStep(FirstPart(req), req.headers[..i], h, parts);
      assert req.headers[..i + 1] == req.headers[..i] + [h];
      if !SkipsReplay(h.0) {
        parts := parts + [HeaderPart(h)];
      }
    }
    assert req.headers[..|req.headers|] == req.headers;
    DataStep(FirstPart(req) + HeaderLines(Replayable(req.headers)), parts, req.body);
    if req.body != "" {
      parts := parts + [DataPart(req.body)];
    }
    text := JoinWith(parts, SEPARATOR);
  }

  // ----- import: the tokeniser -----

  /** The text up to the closing quote and what follows it. */
  function SingleQuoted(s: string): Option<(string, string)> {
    if s == "" then None
    else if s[0] == '\'' then Some(("", s[1..]))
    else match SingleQuoted(s[1..])
      case None => None
      case Some((tok, rest)) => Some(([s[0]] + tok, rest))
  }

  function Unescape(c: char): char {
    if c == 'n' then '\n' else if c == 't' then '\t' else c
  }

  function DoubleQuoted(s: string): Option<(string, string)> {
    if s == "" then None
    else if s[0] == '"' then Some(("", s[1..]))
    else if s[0] == '\\' then
      if |s| == 1 then None
      else match DoubleQuoted(s[2..])
        case None => None
        case Some((tok, rest)) => Some(([Unescape(s[1])] + tok, rest))
    else match DoubleQuoted(s[1..])
      case None => None
      case Some((tok, rest)) => Some(([s[0]] + tok, rest))
  }

  predicate EndsWord(s: string) { s == "" || s[0] == ' ' || s[0] == '\t' }

  function Word(s: string): (string, string) {
    if EndsWord(s) then ("", s)
    else
      var (tok, rest) := Word(s[1..]);
      ([s[0]] + tok, rest)
  }

  lemma {:induction false} SingleQuotedShrinks(s: string)
    ensures SingleQuoted(s).Some? ==> |SingleQuoted(s).value.1| < |s|
  {
    if s != "" { SingleQuotedShrinks(s[1..]); }
  }

  lemma {:induction false} DoubleQuotedShrinks(s: string)
    ensures DoubleQuoted(s).Some? ==> |DoubleQuoted(s).value.1| < |s|
  {
    if |s| > 0 { DoubleQuotedShrinks(s[1..]); }
    if |s| > 1 { DoubleQuotedShrinks(s[2..]); }
  }

  lemma {:induction false} WordShrinks(s: string)
    ensures |Word(s).1| <= |s| && (!EndsWord(s) ==> |Word(s).1| < |s|)
  {
    if !EndsWord(s) { WordShrinks(s[1..]); }
  }

  function Prepend(tok: string, r: Result<seq<string>>): Result<seq<string>> {
    if r.Ok? then Ok([tok] + r.value) else r
  }

  /** The token sequence of `tokenise_shell`. A token ends at its closing quote. */
  function Tokens(s: string): Result<seq<string>>
    decreases |s|
  {
    if s == "" then Ok([])
    else if IsWhitespace(s[0]) then Tokens(s[1..])
    else if s[0] == '\'' then
      match SingleQuoted(s[1..])
      case None => Err("Unterminated single-quoted string")
      case Some((tok, rest)) =>
        SingleQuotedShrinks(s[1..]);
        Prepend(tok, Tokens(rest))
    else if s[0] == '"' then
      match DoubleQuoted(s[1..])
      case None => Err("Unterminated double-quoted string")
      case Some((tok, rest)) =>
        DoubleQuotedShrinks(s[1..]);
        Prepend(tok, Tokens(rest))
    else
      WordShrinks(s);
      Prepend(Word(s).0, Tokens(Word(s).1))
  }

  function Found(tok: string, r: Option<(string, string)>): Option<(string, string)> {
    if r.Some? then Some((tok + r.value.0, r.value.1)) else r
  }

  lemma FoundNothing(r: Option<(string, string)>)
    ensures Found("", r) == r
  {
    if r.Some? { assert "" + r.value.0 == r.value.0; }
  }

  method ReadSingleQuoted(s: string, start: nat) returns (tok: string, i: nat, closed: bool)
    requires start <= |s|
    ensures start <= i <= |s|
    ensures SingleQuoted(s[start..]) == if closed then Some((tok, s[i..])) else None
  {
    tok, i := "", start;
    FoundNothing(SingleQuoted(s[start..]));
    while i < |s|
      invariant start <= i <= |s|
      invariant SingleQuoted(s[start..]) == Found(tok, SingleQuoted(s[i..]))
    {
      var c := s[i];
      i := i + 1;
      assert s[i - 1..][1..] == s[i..];
      if c == '\'' {
        assert tok + "" == tok;
        return tok, i, true;
      }
      ghost var before := tok;
      tok := tok + [c];
      assert forall t: string :: before + ([c] + t) == tok + t;
    }
    closed := false;
  }

  method ReadDoubleQuoted(s: string, start: nat) returns (tok: string, i: nat, closed: bool)
    requires start <= |s|
    ensures start <= i <= |s|
    ensures DoubleQuoted(s[start..]) == if closed then Some((tok, s[i..])) else None
  {
    tok, i := "", start;
    FoundNothing(DoubleQuoted(s[start..]));
    while i < |s|
      invariant start <= i <= |s|
      invariant DoubleQuoted(s[start..]) == Found(tok, DoubleQuoted(s[i..]))
    {
      var c := s[i];
      ghost var here := s[i..];
      i := i + 1;
      assert here[1..] == s[i..];
      if c == '"' {
        assert tok + "" == tok;
        return tok, i, true;
      }
      ghost var before := tok;
      if c == '\\' {
        if i < |s| {
          assert here[1] == s[i] && here[2..] == s[i + 1..];
          tok := tok + [Unescape(s[i])];
          assert forall t: string :: before + ([Unescape(s[i])] + t) == tok + t;
          i := i + 1;
        }
      } else {
        tok := tok + [c];
        assert forall t: string :: before + ([c] + t) == tok + t;
      }
    }
    closed := false;
  }

  method ReadWord(s: string, start: nat) returns (tok: string, i: nat)
    requires start <= |s|
    ensures start <= i <= |s|
    ensures Word(s[start..]) == (tok, s[i..])
  {
    tok, i := "", start;
    assert "" + Word(s[start..]).0 == Word(s[start..]).0;
    while i < |s| && s[i] != ' ' && s[i] != '\t'
      invariant start <= i <= |s|
      invariant Word(s[start..]) == (tok + Word(s[i..]).0, Word(s[i..]).1)
    {
      ghost var before := tok;
      assert s[i..][1..] == s[i + 1..];
      tok := tok + [s[i]];
      assert before + ([s[i]] + Word(s[i + 1..]).0) == tok + Word(s[i + 1..]).0;
      i := i + 1;
    }
    assert tok + "" == tok;
  }

  function After(tokens: seq<string>, r: Result<seq<string>>): Result<seq<string>> {
    if r.Ok? then Ok(tokens + r.value) else r
  }

  lemma AfterPush(tokens: seq<string>, tok: string, r: Result<seq<string>>)
    ensures After(tokens, Prepend(tok, r)) == After(tokens + [tok], r)
  {
    if r.Ok? { Reassociate(tokens, [tok], r.value); }
  }

  /** `tokenise_shell` */
  method TokeniseShell(s: string) returns (result: Result<seq<string>>)
    ensures result == Tokens(s)
  {
    var tokens: seq<string> := [];
    var i: nat := 0;
    assert s[0..] == s;
    assert Tokens(s).Ok? ==> [] + Tokens(s).value == Tokens(s).value;
    while i < |s|
      invariant i <= |s|
      invariant Tokens(s) == After(tokens, Tokens(s[i..]))
      decreases |s| - i
    {
      var c := s[i];
      ghost var here := s[i..];
      assert here[0] == c && here[1..] == s[i + 1..];
      if IsWhitespace(c) {
        i := i + 1;
      } else {
        var tok;
        if c == '\'' {
          var closed;
          tok, i, closed := ReadSingleQuoted(s, i + 1);
          if !closed { return Err("Unterminated single-quoted string"); }
        } else if c == '"' {
          var closed;
          tok, i, closed := ReadDoubleQuoted(s, i + 1);
          if !closed { return Err("Unterminated double-quoted string"); }
        } else {
          WordShrinks(here);
          tok, i := ReadWord(s, i);
        }
        AfterPush(tokens, tok, Tokens(s[i..]));
        tokens := tokens + [tok];
      }
    }
    assert s[i..] == "";
    assert tokens + [] == tokens;
    result := Ok(tokens);
  }

  // ----- import: the options -----

  predicate TokenChar(c: char) {
    'a' <= c <= 'z' || 'A' <= c <= 'Z' || '0' <= c <= '9' || c in "!#$%&'*+-.^_`|~"
  }

  /** `Method::from_bytes` accepts the tokens of RFC 9110, section 5.6.2. */
  predicate ValidVerb(verb: string) { verb != "" && forall c :: c in verb ==> TokenChar(c) }

  predicate IsDataFlag(t: string) { t in {"-d", "--data", "--data-raw", "--data-binary", "--data-ascii"} }

  function StripAt(s: string): string { if s != "" && s[0] == '@' then StripAt(s[1..]) else s }

  /** The position of the first ':', or the length. */
  function ColonAt(s: string): (n: nat)
    ensures n <= |s| && (n < |s| ==> s[n] == ':') && forall i :: 0 <= i < n ==> s[i] != ':'
  {
    if s == "" || s[0] == ':' then 0
    else
      var m := ColonAt(s[1..]);
      assert forall i :: 0 < i < m + 1 ==> s[i] == s[1..][i - 1];
      m + 1
  }

  function AddHeader(headers: map<string, string>, token: string): map<string, string> {
    var n := ColonAt(token);
    if n == |token| then headers else headers[Trim(token[..n]) := Trim(token[n + 1..])]
  }

  /** One turn of the option loop: the new state and how many tokens it took. */
  function Turn(t: string, next: Option<string>, out: Parsed): (r: (Parsed, nat))
    ensures 1 <= r.1 <= 2
  {
    if t == "-X" || t == "--request" then
      (if next.Some? then out.(verb := next.value) else out, 2)
    else if t == "-H" || t == "--header" then
      (if next.Some? then out.(headers := AddHeader(out.headers, next.value)) else out, 2)
    else if IsDataFlag(t) then
      (if next.Some? then out.(body := StripAt(next.value)) else out, 2)
    else if t == "-G" || t == "--get" then (out.(verb := "GET"), 1)
    else if t == "-I" || t == "--head" then (out.(verb := "HEAD"), 1)
    else if !StartsWith(t, "-") && out.url == "" then (out.(url := t), 1)
    else (out, 1)
  }

  function Next(tokens: seq<string>): Option<string> {
    if |tokens| > 1 then Some(tokens[1]) else None
  }

  function Drop(tokens: seq<string>, n: nat): seq<string> {
    if n <= |tokens| then tokens[n..] else []
  }

  function ReadOptions(tokens: seq<string>, out: Parsed): Parsed
    decreases |tokens|
  {
    if tokens == [] then out
    else
      var (out', n) := Turn(tokens[0], Next(tokens), out);
      ReadOptions(Drop(tokens, n), out')
  }

  /** The name after the last '/'. */
  function BaseName(s: string): string {
    if s == "" || s[|s| - 1] == '/' then "" else BaseName(s[..|s| - 1]) + [s[|s| - 1]]
  }

  function Normalise(s: string): string { Replace(Replace(s, "\\\n", " "), "\\\r\n", " ") }

  const EMPTY := Parsed("", "", map[], "")

  /** The final checks; `validUrl` is the URL parser's verdict with scheme http(s). */
  function Check(out: Parsed, validUrl: string -> bool): Result<Parsed> {
    if out.url == "" then Err("No URL found in curl command")
    else if !validUrl(out.url) then Err("Invalid URL")
    else
      var done := if out.verb == "" then out.(verb := if out.body == "" then "GET" else "POST") else out;
      if ValidVerb(done.verb) then Ok(done) else Err("Invalid HTTP method")
  }

  function ParseTokens(tokens: seq<string>, validUrl: string -> bool): Result<Parsed> {
    if tokens == [] then Err("No curl command found")
    else if BaseName(tokens[0]) != "curl" then Err("Input must start with curl")
    else Check(ReadOptions(tokens[1..], EMPTY), validUrl)
  }

  function Parse(input: string, validUrl: string -> bool): Result<Parsed> {
    var tokens := Tokens(Normalise(Trim(input)));
    if tokens.Err? then Err(tokens.error) else ParseTokens(tokens.value, validUrl)
  }

  function TokenAt(tokens: seq<string>, i: nat): Option<string> {
    if i < |tokens| then Some(tokens[i]) else None
  }

  lemma ReadOptionsStep(tokens: seq<string>, i: nat, out: Parsed)
    requires i < |tokens|
    ensures var (out', n) := Turn(tokens[i], TokenAt(tokens, i + 1), out);
            ReadOptions(Drop(tokens, i), out) == ReadOptions(Drop(tokens, i + n), out')
  {
    var rest := Drop(tokens, i);
    assert rest[0] == tokens[i] && Next(rest) == TokenAt(tokens, i + 1);
    DropDrop(tokens, i, Turn(tokens[i], TokenAt(tokens, i + 1), out).1);
  }

  lemma DropDrop(tokens: seq<string>, i: nat, n: nat)
    ensures Drop(Drop(tokens, i), n) == if i <= |tokens| then Drop(tokens, i + n) else []
  {}

  /** The loop of `parse_curl` over the tokens behind the command. */
  method ReadAllOptions(tokens: seq<string>) returns (out: Parsed)
    requires tokens != []
    ensures out == ReadOptions(tokens[1..], EMPTY)
  {
    out := EMPTY;
    var i := 1;
    while i < |tokens|
      invariant 1 <= i
      invariant ReadOptions(tokens[1..], EMPTY) == ReadOptions(Drop(tokens, i), out)
    {
      ReadOptionsStep(tokens, i, out);
      var (out', n) := Turn(tokens[i], TokenAt(tokens, i + 1), out);
      out := out';
      i := i + n;
    }
  }

  /** `parse_curl` */
  method ParseCurl(input: string, validUrl: string -> bool) returns (result: Result<Parsed>)
    ensures result == Parse(input, validUrl)
  {
    var tokenised := TokeniseShell(Normalise(Trim(input)));
    if tokenised.Err? { return Err(tokenised.error); }
    var tokens := tokenised.value;
    if tokens == [] { return Err("No curl command found"); }
    if BaseName(tokens[0]) != "curl" { return Err("Input must start with curl"); }
    var out := ReadAllOptions(tokens);
    result := Check(out, validUrl);
  }
}
