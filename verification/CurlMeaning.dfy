/** What a curl command says, and that the import reads just that: its tokens, its options
    and its defaults (src/export.rs). */
module CurlMeaning {
  import opened Options
  import opened Text
  import opened Selections
  import opened Curl

  // ----- tokens -----

  function Escaped(c: char): char { match c case 'n' => '\n' case 't' => '\t' case _ => c }

  /** The inside of double quotes stands for `tok`. */
  ghost predicate Means(body: string, tok: string)
    decreases |body|
  {
    if body == "" then tok == ""
    else if body[0] == '\\' then
      |body| > 1 && tok != "" && tok[0] == Escaped(body[1]) && Means(body[2..], tok[1..])
    else body[0] != '"' && tok != "" && tok[0] == body[0] && Means(body[1..], tok[1..])
  }

  ghost predicate InSingle(word: string, tok: string) { word == "'" + tok + "'" && '\'' !in tok }

  ghost predicate InDouble(word: string, tok: string) {
    exists body :: word == "\"" + body + "\"" && Means(body, tok)
  }

  /** Without quotes a token goes on to the next space or tab. */
  ghost predicate Bare(word: string, tok: string, rest: string) {
    && word == tok && tok != "" && !IsWhitespace(tok[0]) && tok[0] !in {'\'', '"'}
    && ' ' !in tok && '\t' !in tok && (rest == "" || rest[0] in {' ', '\t'})
  }

  ghost predicate SpellsOne(word: string, tok: string, rest: string) {
    InSingle(word, tok) || InDouble(word, tok) || Bare(word, tok, rest)
  }

  /** `s` is white space, a spelled token, and so on. */
  ghost predicate Spells(s: string, ts: seq<string>)
    decreases |ts|
  {
    if ts == [] then Blank(s)
    else exists gap, word, rest ::
           Blank(gap) && s == gap + word + rest && SpellsOne(word, ts[0], rest) && Spells(rest, ts[1..])
  }

  lemma {:induction false} SingleReads(tok: string, rest: string)
    requires '\'' !in tok
    ensures SingleQuoted(tok + "'" + rest) == Some((tok, rest))
  {
    var s := tok + "'" + rest;
    if tok == "" {
      assert s[1..] == rest;
    } else {
      assert s[0] == tok[0] && tok[0] in tok && s[1..] == tok[1..] + "'" + rest;
      SingleReads(tok[1..], rest);
      assert [tok[0]] + tok[1..] == tok;
    }
  }

  lemma {:induction false} SingleShape(s: string)
    requires SingleQuoted(s).Some?
    ensures var (tok, rest) := SingleQuoted(s).value; s == tok + "'" + rest && '\'' !in tok
  {
    if s[0] == '\'' {
      assert s == "" + "'" + s[1..];
    } else {
      SingleShape(s[1..]);
      var (tok, rest) := SingleQuoted(s[1..]).value;
      assert s == [s[0]] + s[1..];
      assert [s[0]] + (tok + "'" + rest) == ([s[0]] + tok) + "'" + rest;
    }
  }

  lemma {:induction false} DoubleReads(body: string, tok: string, rest: string)
    requires Means(body, tok)
    ensures DoubleQuoted(body + "\"" + rest) == Some((tok, rest))
    decreases |body|
  {
    var s := body + "\"" + rest;
    if body == "" {
      assert s[1..] == rest;
    } else if body[0] == '\\' {
      assert s[1] == body[1] && s[2..] == body[2..] + "\"" + rest;
      DoubleReads(body[2..], tok[1..], rest);
      assert [tok[0]] + tok[1..] == tok;
    } else {
      assert s[0] == body[0] && s[1..] == body[1..] + "\"" + rest;
      DoubleReads(body[1..], tok[1..], rest);
      assert [tok[0]] + tok[1..] == tok;
    }
  }

  lemma MeansEscaped(c: char, inner: string, tok: string)
    requires Means(inner, tok)
    ensures Means(['\\', c] + inner, [Escaped(c)] + tok)
  {
    var body, all := ['\\', c] + inner, [Escaped(c)] + tok;
    assert body[2..] == inner && all[1..] == tok && body[0] == '\\' && body[1] == c;
  }

  lemma MeansPlain(c: char, inner: string, tok: string)
    requires Means(inner, tok) && c !in {'\\', '"'}
    ensures Means([c] + inner, [c] + tok)
  {
    assert ([c] + inner)[1..] == inner && ([c] + tok)[1..] == tok;
  }

  lemma CloseBehind(a: string, inner: string, rest: string)
    ensures a + (inner + "\"" + rest) == (a + inner) + "\"" + rest
  {}

  lemma {:induction false} DoubleShape(s: string) returns (body: string)
    requires DoubleQuoted(s).Some?
    ensures var (tok, rest) := DoubleQuoted(s).value; s == body + "\"" + rest && Means(body, tok)
    decreases |s|
  {
    if s[0] == '"' {
      body := "";
      assert s == "" + "\"" + s[1..];
    } else if s[0] == '\\' {
      var (tok, rest) := DoubleQuoted(s[2..]).value;
      var inner := DoubleShape(s[2..]);
      body := ['\\', s[1]] + inner;
      MeansEscaped(s[1], inner, tok);
      CloseBehind(['\\', s[1]], inner, rest);
      assert s == ['\\', s[1]] + s[2..];
    } else {
      var (tok, rest) := DoubleQuoted(s[1..]).value;
      var inner := DoubleShape(s[1..]);
      body := [s[0]] + inner;
      MeansPlain(s[0], inner, tok);
      CloseBehind([s[0]], inner, rest);
      assert s == [s[0]] + s[1..];
    }
  }

  lemma {:induction false} WordReads(tok: string, rest: string)
    requires ' ' !in tok && '\t' !in tok && EndsWord(rest)
    ensures Word(tok + rest) == (tok, rest)
  {
    if tok == "" {
      assert tok + rest == rest;
    } else {
      assert (tok + rest)[0] == tok[0] && tok[0] in tok && (tok + rest)[1..] == tok[1..] + rest;
      WordReads(tok[1..], rest);
      assert [tok[0]] + tok[1..] == tok;
    }
  }

  lemma {:induction false} WordShape(s: string)
    ensures var (tok, rest) := Word(s); s == tok + rest && ' ' !in tok && '\t' !in tok && EndsWord(rest)
  {
    if !EndsWord(s) {
      WordShape(s[1..]);
      var (tok, rest) := Word(s[1..]);
      assert s == [s[0]] + s[1..];
      assert [s[0]] + (tok + rest) == ([s[0]] + tok) + rest;
    }
  }

  lemma {:induction false} TokensSkip(gap: string, s: string)
    requires Blank(gap)
    ensures Tokens(gap + s) == Tokens(s)
  {
    if gap == "" {
      assert gap + s == s;
    } else {
      assert (gap + s)[0] == gap[0] && (gap + s)[1..] == gap[1..] + s;
      TokensSkip(gap[1..], s);
    }
  }

  lemma SingleTokenRead(tok: string, rest: string)
    requires '\'' !in tok
    ensures Tokens("'" + tok + "'" + rest) == Prepend(tok, Tokens(rest))
  {
    var s := "'" + tok + "'" + rest;
    assert s[1..] == tok + "'" + rest;
    SingleReads(tok, rest);
  }

  lemma DoubleTokenRead(body: string, tok: string, rest: string)
    requires Means(body, tok)
    ensures Tokens("\"" + body + "\"" + rest) == Prepend(tok, Tokens(rest))
  {
    var s := "\"" + body + "\"" + rest;
    assert s[1..] == body + "\"" + rest;
    DoubleReads(body, tok, rest);
  }

  lemma OneTokenRead(word: string, tok: string, rest: string)
    requires SpellsOne(word, tok, rest)
    ensures Tokens(word + rest) == Prepend(tok, Tokens(rest))
  {
    if InSingle(word, tok) {
      SingleTokenRead(tok, rest);
    } else if InDouble(word, tok) {
      var body :| word == "\"" + body + "\"" && Means(body, tok);
      DoubleTokenRead(body, tok, rest);
    } else {
      WordReads(tok, rest);
      assert (word + rest)[0] == tok[0];
    }
  }

  lemma GapAndToken(gap: string, word: string, tok: string, rest: string)
    requires Blank(gap) && SpellsOne(word, tok, rest)
    ensures Tokens(gap + word + rest) == Prepend(tok, Tokens(rest))
  {
    OneTokenRead(word, tok, rest);
    TokensSkip(gap, word + rest);
    Reassociate(gap, word, rest);
  }

  lemma {:induction false} SpelledIsRead(s: string, ts: seq<string>)
    requires Spells(s, ts)
    ensures Tokens(s) == Ok(ts)
    decreases |ts|
  {
    if ts == [] {
      TokensSkip(s, "");
      assert s + "" == s;
    } else {
      var gap, word, rest :|
        Blank(gap) && s == gap + word + rest && SpellsOne(word, ts[0], rest) && Spells(rest, ts[1..]);
      SpelledIsRead(rest, ts[1..]);
      GapAndToken(gap, word, ts[0], rest);
      assert [ts[0]] + ts[1..] == ts;
    }
  }

  lemma {:induction false} BlankStart(s: string) returns (gap: string, core: string)
    ensures s == gap + core && Blank(gap) && (core == "" || !IsWhitespace(core[0]))
    decreases |s|
  {
    if s != "" && IsWhitespace(s[0]) {
      var more;
      more, core := BlankStart(s[1..]);
      gap := [s[0]] + more;
      assert s == [s[0]] + s[1..];
      assert [s[0]] + (more + core) == gap + core;
    } else {
      gap, core := "", s;
    }
  }

  lemma FirstSingle(core: string) returns (word: string, tok: string, rest: string)
    requires core != "" && core[0] == '\'' && Tokens(core).Ok?
    ensures core == word + rest && InSingle(word, tok) && |rest| < |core|
    ensures Tokens(core) == Prepend(tok, Tokens(rest))
  {
    SingleShape(core[1..]);
    tok, rest := SingleQuoted(core[1..]).value.0, SingleQuoted(core[1..]).value.1;
    word := "'" + tok + "'";
    assert core == "'" + core[1..];
    assert "'" + (tok + "'" + rest) == word + rest;
  }

  lemma FirstDouble(core: string) returns (word: string, tok: string, rest: string)
    requires core != "" && core[0] == '"' && Tokens(core).Ok?
    ensures core == word + rest && InDouble(word, tok) && |rest| < |core|
    ensures Tokens(core) == Prepend(tok, Tokens(rest))
  {
    var body := DoubleShape(core[1..]);
    tok, rest := DoubleQuoted(core[1..]).value.0, DoubleQuoted(core[1..]).value.1;
    word := "\"" + body + "\"";
    assert core == "\"" + core[1..];
    assert "\"" + (body + "\"" + rest) == word + rest;
  }

  /** The first token of a text that starts with one. */
  lemma FirstSpelled(core: string) returns (word: string, tok: string, rest: string)
    requires core != "" && !IsWhitespace(core[0]) && Tokens(core).Ok?
    ensures core == word + rest && SpellsOne(word, tok, rest) && |rest| < |core|
    ensures Tokens(core) == Prepend(tok, Tokens(rest))
  {
    if core[0] == '\'' {
      word, tok, rest := FirstSingle(core);
    } else if core[0] == '"' {
      word, tok, rest := FirstDouble(core);
    } else {
      WordShape(core);
      WordShrinks(core);
      assert !EndsWord(core);
      word, tok, rest := Word(core).0, Word(core).0, Word(core).1;
      assert tok[0] == core[0];
    }
  }

  lemma {:induction false} ReadIsSpelled(s: string, ts: seq<string>)
    requires Tokens(s) == Ok(ts)
    ensures Spells(s, ts)
    decreases |s|
  {
    var gap, core := BlankStart(s);
    TokensSkip(gap, core);
    if core == "" {
      assert s == gap;
    } else {
      var word, tok, rest := FirstSpelled(core);
      assert Tokens(rest).Ok?;
      assert ts == [tok] + Tokens(rest).value && ts[1..] == Tokens(rest).value;
      ReadIsSpelled(rest, ts[1..]);
      assert s == gap + word + rest;
    }
  }

  /** The tokens of a text are exactly those that it spells. */
  lemma TokensExactly(s: string, ts: seq<string>)
    ensures Tokens(s) == Ok(ts) <==> Spells(s, ts)
  {
    if Tokens(s) == Ok(ts) { ReadIsSpelled(s, ts); }
    if Spells(s, ts) { SpelledIsRead(s, ts); }
  }

  // ----- options -----

  /** One option as it stands in the command; an option that nothing reads is passed over,
      and so is one at the end that lacks its value. */
  datatype Opt =
    | Method(flag: string, value: string) | Line(flag: string, value: string) | Data(flag: string, value: string)
    | Fetch(flag: string) | Peek(flag: string) | Address(text: string) | Other(flag: string)

  const METHOD_FLAGS := {"-X", "--request"}
  const HEADER_FLAGS := {"-H", "--header"}
  const DATA_FLAGS := {"-d", "--data", "--data-raw", "--data-binary", "--data-ascii"}
  const GET_FLAGS := {"-G", "--get"}
  const HEAD_FLAGS := {"-I", "--head"}

  predicate IsOpt(o: Opt) {
    match o
    case Method(flag, _) => flag in METHOD_FLAGS
    case Line(flag, _) => flag in HEADER_FLAGS
    case Data(flag, _) => flag in DATA_FLAGS
    case Fetch(flag) => flag in GET_FLAGS
    case Peek(flag) => flag in HEAD_FLAGS
    case Address(text) => !StartsWith(text, "-")
    case Other(flag) =>
      StartsWith(flag, "-") && flag !in METHOD_FLAGS + HEADER_FLAGS + DATA_FLAGS + GET_FLAGS + HEAD_FLAGS
  }

  function TokensOf(o: Opt): seq<string> {
    match o
    case Method(flag, value) => [flag, value]
    case Line(flag, value) => [flag, value]
    case Data(flag, value) => [flag, value]
    case Address(text) => [text]
    case _ => [o.flag]
  }

  function AllTokens(opts: seq<Opt>): seq<string> {
    if opts == [] then [] else TokensOf(opts[0]) + AllTokens(opts[1..])
  }

  // ----- what an option sets -----

  function SetsVerb(o: Opt): Option<string> {
    match o
    case Method(_, value) => Some(value)
    case Fetch(_) => Some("GET")
    case Peek(_) => Some("HEAD")
    case _ => None
  }

  function SetsBody(o: Opt): Option<string> { if o.Data? then Some(StripAt(o.value)) else None }

  function SetsUrl(o: Opt): Option<string> { if o.Address? && o.text != "" then Some(o.text) else None }

  /** The header that a line gives: a name and a value around the first colon. */
  function HeaderOf(value: string): Option<(string, string)> {
    var n := ColonAt(value);
    if n == |value| then None else Some((Trim(value[..n]), Trim(value[n + 1..])))
  }

  function SetsHeader(key: string): Opt -> Option<Option<string>> {
    (o: Opt) => if o.Line? && HeaderOf(o.value).Some? && HeaderOf(o.value).value.0 == key
                then Some(Some(HeaderOf(o.value).value.1)) else None
  }

  function Look(m: map<string, string>, key: string): Option<string> { if key in m then Some(m[key]) else None }

  /** The last option that sets it decides; without one it stays as it was. */
  ghost predicate LastSets<A>(f: Opt -> Option<A>, opts: seq<Opt>, before: A, after: A) {
    || (exists i :: 0 <= i < |opts| && f(opts[i]) == Some(after) && forall j :: i < j < |opts| ==> f(opts[j]).None?)
    || (after == before && forall j :: 0 <= j < |opts| ==> f(opts[j]).None?)
  }

  /** The first option that sets it decides. */
  ghost predicate FirstSets<A>(f: Opt -> Option<A>, opts: seq<Opt>, before: A, after: A) {
    || (exists i :: 0 <= i < |opts| && f(opts[i]) == Some(after) && forall j :: 0 <= j < i ==> f(opts[j]).None?)
    || (after == before && forall j :: 0 <= j < |opts| ==> f(opts[j]).None?)
  }

  lemma LastFront<A>(f: Opt -> Option<A>, o: Opt, rest: seq<Opt>, before: A, after: A)
    requires LastSets(f, rest, GetOr(f(o), before), after)
    ensures LastSets(f, [o] + rest, before, after)
  {
    var opts := [o] + rest;
    assert opts[0] == o && forall k :: 0 <= k < |rest| ==> opts[k + 1] == rest[k];
    if i :| 0 <= i < |rest| && f(rest[i]) == Some(after) && forall j :: i < j < |rest| ==> f(rest[j]).None? {
      assert f(opts[i + 1]) == Some(after);
      forall j | i + 1 < j < |opts| ensures f(opts[j]).None? { assert opts[j] == rest[j - 1]; }
    } else {
      forall j | 0 < j < |opts| ensures f(opts[j]).None? { assert opts[j] == rest[j - 1]; }
      if f(o).Some? { assert f(opts[0]) == Some(after); }
    }
  }

  lemma FirstFront<A>(f: Opt -> Option<A>, o: Opt, rest: seq<Opt>, before: A, after: A)
    requires if f(o).Some? then after == f(o).value else FirstSets(f, rest, before, after)
    ensures FirstSets(f, [o] + rest, before, after)
  {
    var opts := [o] + rest;
    assert opts[0] == o && forall k :: 0 <= k < |rest| ==> opts[k + 1] == rest[k];
    if f(o).Some? {
      assert f(opts[0]) == Some(after);
    } else if i :| 0 <= i < |rest| && f(rest[i]) == Some(after) && forall j :: 0 <= j < i ==> f(rest[j]).None? {
      assert f(opts[i + 1]) == Some(after);
      forall j | 0 <= j < i + 1 ensures f(opts[j]).None? { if j > 0 { assert opts[j] == rest[j - 1]; } }
    } else {
      forall j | 0 <= j < |opts| ensures f(opts[j]).None? { if j > 0 { assert opts[j] == rest[j - 1]; } }
    }
  }

  // ----- one option is read -----

  /** What one option makes of the parts read so far. */
  function Read(o: Opt, out: Parsed): Parsed {
    Parsed(GetOr(SetsVerb(o), out.verb), if out.url == "" then GetOr(SetsUrl(o), "") else out.url,
           if o.Line? then AddHeader(out.headers, o.value) else out.headers, GetOr(SetsBody(o), out.body))
  }

  lemma TurnReads(o: Opt, next: Option<string>, out: Parsed)
    requires IsOpt(o) && (|TokensOf(o)| == 2 ==> next == Some(TokensOf(o)[1]))
    ensures Turn(TokensOf(o)[0], next, out) == (Read(o, out), |TokensOf(o)|)
  {
    FlagsDiffer(TokensOf(o)[0]);
  }

  /** No flag is in two groups, and all start with a hyphen. */
  lemma FlagsDiffer(t: string)
    ensures t in METHOD_FLAGS ==> t !in HEADER_FLAGS + DATA_FLAGS + GET_FLAGS + HEAD_FLAGS
    ensures t in HEADER_FLAGS ==> t !in DATA_FLAGS + GET_FLAGS + HEAD_FLAGS
    ensures t in DATA_FLAGS ==> t !in GET_FLAGS + HEAD_FLAGS
    ensures t in GET_FLAGS ==> t !in HEAD_FLAGS
    ensures t in METHOD_FLAGS + HEADER_FLAGS + DATA_FLAGS + GET_FLAGS + HEAD_FLAGS ==> StartsWith(t, "-")
  {
    assert "-X"[1] == 'X' && "-H"[1] == 'H' && "-d"[1] == 'd' && "-G"[1] == 'G' && "-I"[1] == 'I';
    assert "--header"[3] == 'e' && "--head"[5] == 'd' && "--data"[5] == 'a' && "--data"[2] == 'd' && "--get"[2] == 'g';
    assert "--request"[2] == 'r' && "--head"[2] == 'h';
  }

  lemma ReadHeaders(o: Opt, out: Parsed, key: string)
    ensures Look(Read(o, out).headers, key) == GetOr(SetsHeader(key)(o), Look(out.headers, key))
  {}

  /** What the options say altogether. */
  ghost predicate Says(opts: seq<Opt>, before: Parsed, out: Parsed) {
    && LastSets(SetsVerb, opts, before.verb, out.verb) && LastSets(SetsBody, opts, before.body, out.body)
    && (if before.url != "" then out.url == before.url else FirstSets(SetsUrl, opts, "", out.url))
    && forall key :: LastSets(SetsHeader(key), opts, Look(before.headers, key), Look(out.headers, key))
  }

  lemma SaysFront(o: Opt, rest: seq<Opt>, before: Parsed, out: Parsed)
    requires Says(rest, Read(o, before), out)
    ensures Says([o] + rest, before, out)
  {
    LastFront(SetsVerb, o, rest, before.verb, out.verb);
    LastFront(SetsBody, o, rest, before.body, out.body);
    if before.url == "" { FirstFront(SetsUrl, o, rest, "", out.url); }
    forall key ensures LastSets(SetsHeader(key), [o] + rest, Look(before.headers, key), Look(out.headers, key)) {
      ReadHeaders(o, before, key);
      assert LastSets(SetsHeader(key), rest, Look(Read(o, before).headers, key), Look(out.headers, key));
      LastFront(SetsHeader(key), o, rest, Look(before.headers, key), Look(out.headers, key));
    }
  }

  lemma FirstOptionRead(o: Opt, more: seq<string>, out: Parsed)
    requires IsOpt(o)
    ensures ReadOptions(TokensOf(o) + more, out) == ReadOptions(more, Read(o, out))
  {
    var ts := TokensOf(o) + more;
    TurnReads(o, Next(ts), out);
    assert Drop(ts, |TokensOf(o)|) == more;
  }

  /** A flag at the end without its value. */
  predicate Dangling(cut: seq<string>) {
    cut == [] || (|cut| == 1 && cut[0] in METHOD_FLAGS + HEADER_FLAGS + DATA_FLAGS)
  }

  lemma DanglingRead(cut: seq<string>, out: Parsed)
    requires Dangling(cut)
    ensures ReadOptions(cut, out) == out
  {
    if cut != [] {
      FlagsDiffer(cut[0]);
      assert Turn(cut[0], Next(cut), out) == (out, 2);
      assert Drop(cut, 2) == [];
    }
  }

  lemma AllTokensFront(o: Opt, more: seq<Opt>, cut: seq<string>)
    ensures AllTokens([o] + more) + cut == TokensOf(o) + (AllTokens(more) + cut)
  {
    assert ([o] + more)[1..] == more;
    Reassociate(TokensOf(o), AllTokens(more), cut);
  }

  lemma OneMoreSaid(o: Opt, rest: seq<Opt>, cut: seq<string>, before: Parsed)
    requires IsOpt(o) && Says(rest, Read(o, before), ReadOptions(AllTokens(rest) + cut, Read(o, before)))
    ensures Says([o] + rest, before, ReadOptions(AllTokens([o] + rest) + cut, before))
  {
    AllTokensFront(o, rest, cut);
    FirstOptionRead(o, AllTokens(rest) + cut, before);
    SaysFront(o, rest, before, ReadOptions(AllTokens(rest) + cut, Read(o, before)));
  }

  ghost predicate AreOpts(opts: seq<Opt>) { forall i :: 0 <= i < |opts| ==> IsOpt(opts[i]) }

  /** The option loop reads from a list of options exactly what they say. */
  lemma {:induction false} OptionsSaid(opts: seq<Opt>, cut: seq<string>, before: Parsed)
    requires AreOpts(opts) && Dangling(cut)
    ensures Says(opts, before, ReadOptions(AllTokens(opts) + cut, before))
    decreases |opts|
  {
    if opts == [] {
      DanglingRead(cut, before);
      assert AllTokens([]) + cut == cut;
    } else {
      assert AreOpts(opts[1..]);
      OptionsSaid(opts[1..], cut, Read(opts[0], before));
      OneMoreSaid(opts[0], opts[1..], cut, before);
      assert [opts[0]] + opts[1..] == opts;
    }
  }

  lemma FirstOption(ts: seq<string>) returns (o: Opt, rest: seq<string>)
    requires ts != [] && !Dangling(ts)
    ensures IsOpt(o) && ts == TokensOf(o) + rest && |rest| < |ts|
  {
    var t := ts[0];
    FlagsDiffer(t);
    if t in METHOD_FLAGS + HEADER_FLAGS + DATA_FLAGS {
      assert |ts| > 1;
      o := if t in METHOD_FLAGS then Method(t, ts[1]) else if t in HEADER_FLAGS then Line(t, ts[1]) else Data(t, ts[1]);
      rest := ts[2..];
      assert ts == [t, ts[1]] + rest;
    } else {
      o := if t in GET_FLAGS then Fetch(t) else if t in HEAD_FLAGS then Peek(t)
           else if StartsWith(t, "-") then Other(t) else Address(t);
      rest := ts[1..];
      assert ts == [t] + rest;
    }
  }

  /** Every list of tokens is a list of options. */
  lemma {:induction false} TokensAreOptions(ts: seq<string>) returns (opts: seq<Opt>, cut: seq<string>)
    ensures AreOpts(opts) && Dangling(cut) && ts == AllTokens(opts) + cut
    decreases |ts|
  {
    if Dangling(ts) {
      opts, cut := [], ts;
    } else {
      var o, rest := FirstOption(ts);
      var more;
      more, cut := TokensAreOptions(rest);
      opts := [o] + more;
      AllTokensFront(o, more, cut);
    }
  }

  // ----- what they say is one thing -----

  lemma LastOnce<A>(f: Opt -> Option<A>, opts: seq<Opt>, before: A, a: A, b: A)
    requires LastSets(f, opts, before, a) && LastSets(f, opts, before, b)
    ensures a == b
  {
    if i :| 0 <= i < |opts| && f(opts[i]) == Some(a) && forall j :: i < j < |opts| ==> f(opts[j]).None? {
      assert f(opts[i]).Some?;
      var k :| 0 <= k < |opts| && f(opts[k]) == Some(b) && forall j :: k < j < |opts| ==> f(opts[j]).None?;
      assert i == k;
    }
  }

  lemma FirstOnce<A>(f: Opt -> Option<A>, opts: seq<Opt>, before: A, a: A, b: A)
    requires FirstSets(f, opts, before, a) && FirstSets(f, opts, before, b)
    ensures a == b
  {
    if i :| 0 <= i < |opts| && f(opts[i]) == Some(a) && forall j :: 0 <= j < i ==> f(opts[j]).None? {
      assert f(opts[i]).Some?;
      var k :| 0 <= k < |opts| && f(opts[k]) == Some(b) && forall j :: 0 <= j < k ==> f(opts[j]).None?;
      assert i == k;
    }
  }

  lemma SaysOnce(opts: seq<Opt>, before: Parsed, a: Parsed, b: Parsed)
    requires Says(opts, before, a) && Says(opts, before, b)
    ensures a == b
  {
    LastOnce(SetsVerb, opts, before.verb, a.verb, b.verb);
    LastOnce(SetsBody, opts, before.body, a.body, b.body);
    if before.url == "" { FirstOnce(SetsUrl, opts, "", a.url, b.url); }
    forall key ensures Look(a.headers, key) == Look(b.headers, key) {
      LastOnce(SetsHeader(key), opts, Look(before.headers, key), Look(a.headers, key), Look(b.headers, key));
    }
    SameMap(a.headers, b.headers);
  }

  lemma SameMap(a: map<string, string>, b: map<string, string>)
    requires forall key :: Look(a, key) == Look(b, key)
    ensures a == b
  {
    forall key ensures key in a <==> key in b { assert Look(a, key) == Look(b, key); }
    forall key | key in a ensures a[key] == b[key] { assert Look(a, key) == Look(b, key); }
  }

  // ----- the whole import -----

  /** The method a command without one has. */
  predicate Completes(said: Parsed, r: Parsed) {
    && r.url == said.url && r.headers == said.headers && r.body == said.body
    && r.verb == if said.verb != "" then said.verb else if said.body == "" then "GET" else "POST"
  }

  /** The request that the options spell out. */
  ghost predicate Stands(opts: seq<Opt>, validUrl: string -> bool, r: Parsed) {
    && (exists said :: Says(opts, EMPTY, said) && Completes(said, r))
    && r.url != "" && validUrl(r.url) && ValidVerb(r.verb)
  }

  predicate IsCurl(command: string) { command == "curl" || EndsWith(command, "/curl") }

  lemma EndsWithLonger(s: string, b: string, c: char)
    requires EndsWith(s, b)
    ensures EndsWith(s + [c], b + [c])
  {
    assert s == s[..|s| - |b|] + b;
    assert s + [c] == s[..|s| - |b|] + (b + [c]);
  }

  lemma {:induction false} BaseNameShape(s: string)
    ensures BaseName(s) == s || EndsWith(s, "/" + BaseName(s))
  {
    if s != "" {
      var n := |s| - 1;
      assert s == s[..n] + [s[n]];
      if s[n] == '/' {
        assert "/" + "" == "/";
      } else {
        var b := BaseName(s[..n]);
        BaseNameShape(s[..n]);
        if b != s[..n] {
          EndsWithLonger(s[..n], "/" + b, s[n]);
          assert ("/" + b) + [s[n]] == "/" + (b + [s[n]]);
        }
      }
    }
  }

  lemma {:induction false} BaseNameBehind(a: string, b: string)
    requires '/' !in b && (a == "" || a[|a| - 1] == '/')
    ensures BaseName(a + b) == b
  {
    if b == "" {
      assert a + b == a;
    } else {
      var n := |b| - 1;
      assert (a + b)[..|a + b| - 1] == a + b[..n] && (a + b)[|a + b| - 1] == b[n] && b[n] in b;
      BaseNameBehind(a, b[..n]);
      assert b[..n] + [b[n]] == b;
    }
  }

  lemma CurlBehind(command: string)
    requires EndsWith(command, "/curl")
    ensures BaseName(command) == "curl"
  {
    var a := command[..|command| - 5] + "/";
    assert command == command[..|command| - 5] + "/curl";
    assert command == a + "curl";
    BaseNameBehind(a, "curl");
  }

  lemma CommandExactly(command: string)
    ensures BaseName(command) == "curl" <==> IsCurl(command)
  {
    BaseNameShape(command);
    assert "/" + "curl" == "/curl";
    BaseNameBehind("", "curl");
    assert "" + "curl" == "curl";
    if EndsWith(command, "/curl") { CurlBehind(command); }
  }

  lemma ChecksExactly(said: Parsed, validUrl: string -> bool, r: Parsed)
    ensures Check(said, validUrl) == Ok(r) <==>
            Completes(said, r) && r.url != "" && validUrl(r.url) && ValidVerb(r.verb)
  {}

  /** A command is read as a request exactly when its first word is curl and its options
      spell out that request: the last method, body and value of each header count, and the
      first address; without a method it is GET, or POST if there is a body. */
  lemma ImportExactly(input: string, validUrl: string -> bool, command: string, opts: seq<Opt>, cut: seq<string>,
                      r: Parsed)
    requires Spells(Normalise(Trim(input)), [command] + (AllTokens(opts) + cut))
    requires AreOpts(opts) && Dangling(cut)
    ensures Parse(input, validUrl) == Ok(r) <==> IsCurl(command) && Stands(opts, validUrl, r)
  {
    var tokens := [command] + (AllTokens(opts) + cut);
    TokensExactly(Normalise(Trim(input)), tokens);
    CommandExactly(command);
    assert tokens[1..] == AllTokens(opts) + cut;
    var said := ReadOptions(tokens[1..], EMPTY);
    OptionsSaid(opts, cut, EMPTY);
    ChecksExactly(said, validUrl, r);
    forall other | Says(opts, EMPTY, other) ensures other == said { SaysOnce(opts, EMPTY, other, said); }
  }

  /** And every command that is read at all is read this way. */
  lemma EveryImport(input: string, validUrl: string -> bool) returns (command: string, opts: seq<Opt>, cut: seq<string>)
    requires Parse(input, validUrl).Ok?
    ensures Spells(Normalise(Trim(input)), [command] + (AllTokens(opts) + cut))
    ensures AreOpts(opts) && Dangling(cut)
    ensures IsCurl(command) && Stands(opts, validUrl, Parse(input, validUrl).value)
  {
    var tokens := Tokens(Normalise(Trim(input))).value;
    command := tokens[0];
    opts, cut := TokensAreOptions(tokens[1..]);
    assert tokens == [command] + (AllTokens(opts) + cut);
    TokensExactly(Normalise(Trim(input)), tokens);
    ImportExactly(input, validUrl, command, opts, cut, Parse(input, validUrl).value);
  }

  // ----- values -----

  function Ats(n: nat): string { seq(n, _ => '@') }

  /** The body is the value without the at signs in front of it. */
  lemma {:induction false} BodyExactly(value: string, body: string)
    ensures StripAt(value) == body <==> (body == "" || body[0] != '@') && exists n: nat :: value == Ats(n) + body
  {
    if StripAt(value) == body {
      var n := AtsBefore(value);
    }
    if (body == "" || body[0] != '@') && exists n: nat :: value == Ats(n) + body {
      var n: nat :| value == Ats(n) + body;
      StripAts(n, body);
    }
  }

  lemma {:induction false} AtsBefore(value: string) returns (n: nat)
    ensures value == Ats(n) + StripAt(value) && (StripAt(value) == "" || StripAt(value)[0] != '@')
  {
    n := 0;
    if value != "" && value[0] == '@' {
      var m := AtsBefore(value[1..]);
      n := m + 1;
      assert value == "@" + value[1..] && Ats(n) == "@" + Ats(m);
    }
  }

  lemma {:induction false} StripAts(n: nat, body: string)
    requires body == "" || body[0] != '@'
    ensures StripAt(Ats(n) + body) == body
  {
    if n == 0 {
      assert Ats(0) + body == body;
    } else {
      assert (Ats(n) + body)[1..] == Ats(n - 1) + body;
      StripAts(n - 1, body);
    }
  }

  /** A header line has the name and the value around its first colon, without the white
      space around them; without a colon it is none. */
  lemma HeaderExactly(line: string, name: string, value: string)
    ensures HeaderOf(line) == Some((name, value)) <==>
            exists n, v :: line == n + ":" + v && ':' !in n && Trimmed(name) && Pads(n, name)
                           && Trimmed(value) && Pads(v, value)
    ensures HeaderOf(line).None? <==> ':' !in line
  {
    var at := ColonAt(line);
    if at < |line| {
      assert line == line[..at] + ":" + line[at + 1..];
      TrimExactly(line[..at], name);
      TrimExactly(line[at + 1..], value);
    }
    forall n, v | line == n + ":" + v && ':' !in n ensures at == |n| && line[..at] == n && line[at + 1..] == v {
      assert line[|n|] == ':' && forall i :: 0 <= i < |n| ==> line[i] == n[i];
    }
  }

  // ----- what is sent again -----

  function SentAgain(h: (string, string)): Option<(string, string)> { if SkipsReplay(h.0) then None else Some(h) }

  /** The exported headers are those sent again, in their order. */
  lemma {:induction false} ReplayableSelected(headers: seq<(string, string)>)
    ensures Selects(SentAgain, headers, Replayable(headers))
  {
    if headers == [] {
      SelectsNone(SentAgain);
    } else {
      ReplayableSelected(headers[1..]);
      SelectsFront(SentAgain, headers[0], headers[1..], Replayable(headers[1..]));
      assert [headers[0]] + headers[1..] == headers;
    }
  }

  /** Whether a header is sent again does not depend on its spelling. */
  lemma SkippedHoweverSpelled(raw: string, core: string, name: string)
    requires Trimmed(core) && Pads(raw, core) && Trimmed(name) && SameLetters(core, name)
    ensures SkipsReplay(raw) <==> SkipsReplay(name)
  {
    TrimExactly(raw, core);
    TrimFixed(name);
    SameLower(core, name);
  }
}
