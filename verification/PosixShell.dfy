/** The exported curl command, read by a POSIX shell: section 2.2 of the POSIX Shell
    Command Language (quoting) and section 2.3 (token recognition). */
module PosixShell {
  import opened Options
  import opened Curl
  import opened Counting
  import opened CurlTokens
  import opened CurlRoundTrip

  /** The characters that section 2.2 lists as special wherever they stand unquoted, other
      than blanks, the backslash and the two quotes. */
  predicate Special(c: char) {
    c in {'|', '&', ';', '<', '>', '(', ')', '$', '`', '\n', '*', '?', '['}
  }

  /** These are special at the start of a word only: a comment (2.3) and a tilde
      expansion (2.6.1). The equals sign and the percent sign of section 2.2 matter to
      words before the command name and to job control, so not here. */
  predicate StartsSpecial(c: char) { c in {'#', '~'} }

  function Extend(word: Option<string>, s: string): Option<string> {
    Some((if word.Some? then word.value else "") + s)
  }

  function Finish(word: Option<string>): seq<string> {
    if word.Some? then [word.value] else []
  }

  /** The text up to the closing double quote and what follows it (2.2.3). A backslash
      keeps its meaning before five characters only. None where the quote is not closed
      or an expansion begins. */
  function Quoted(s: string): Option<(string, string)>
    decreases |s|
  {
    if s == "" || s[0] == '$' || s[0] == '`' then None
    else if s[0] == '"' then Some(("", s[1..]))
    else if s[0] == '\\' && |s| > 1 && s[1] == '\n' then Quoted(s[2..])
    else if s[0] == '\\' && |s| > 1 && s[1] in {'$', '`', '"', '\\'} then Prefixed(s[1], Quoted(s[2..]))
    else Prefixed(s[0], Quoted(s[1..]))
  }

  function Prefixed(c: char, r: Option<(string, string)>): Option<(string, string)> {
    if r.Some? then Some(([c] + r.value.0, r.value.1)) else None
  }

  lemma {:induction false} QuotedShrinks(s: string)
    ensures Quoted(s).Some? ==> |Quoted(s).value.1| < |s|
    decreases |s|
  {
    if |s| > 0 { QuotedShrinks(s[1..]); }
    if |s| > 1 { QuotedShrinks(s[2..]); }
  }

  /** The words of a command; None where it is not a plain list of words. Outside
      quotes a backslash makes the next character literal (2.2.1), except that a
      backslash and a newline are removed; between single quotes every character is
      literal (2.2.2). */
  function Words(s: string, word: Option<string>): Option<seq<string>>
    decreases |s|
  {
    if s == "" then Some(Finish(word))
    else if s[0] == ' ' || s[0] == '\t' then Before(Finish(word), Words(s[1..], None))
    else if s[0] == '\\' then
      if |s| == 1 then None
      else if s[1] == '\n' then Words(s[2..], word)
      else Words(s[2..], Extend(word, [s[1]]))
    else if s[0] == '\'' then
      match SingleQuoted(s[1..])
      case None => None
      case Some((text, rest)) =>
        SingleQuotedShrinks(s[1..]);
        Words(rest, Extend(word, text))
    else if s[0] == '"' then
      match Quoted(s[1..])
      case None => None
      case Some((text, rest)) =>
        QuotedShrinks(s[1..]);
        Words(rest, Extend(word, text))
    else if Special(s[0]) || (word.None? && StartsSpecial(s[0])) then None
    else Words(s[1..], Extend(word, [s[0]]))
  }

  function Before(ws: seq<string>, r: Option<seq<string>>): Option<seq<string>> {
    if r.Some? then Some(ws + r.value) else None
  }

  lemma ExtendTwice(word: Option<string>, a: string, b: string)
    ensures Extend(Extend(word, a), b) == Extend(word, a + b)
  {
    var w := if word.Some? then word.value else "";
    assert w + a + b == w + (a + b);
  }

  lemma WordsQuoted(q: string, rest: string, word: Option<string>)
    requires QuoteFree(q)
    ensures Words("'" + q + "'" + rest, word) == Words(rest, Extend(word, q))
  {
    var s := "'" + q + "'" + rest;
    assert s[1..] == q + "'" + rest;
    SingleQuotedPlain(q, rest);
  }

  /** The quoted form of any text whatever reads back as that text, inside one word. */
  lemma {:induction false} QuotedReadsBack(v: string, rest: string, word: Option<string>)
    ensures Words("'" + Escape(v) + "'" + rest, word) == Words(rest, Extend(word, v))
    decreases |v|
  {
    if QuoteFree(v) {
      EscapePlain(v);
      WordsQuoted(v, rest, word);
    } else {
      var p, q := SplitAtQuote(v);
      EscapeAtQuote(p, q);
      var tail := "'" + Escape(q) + "'" + rest;
      assert "'" + Escape(v) + "'" + rest == "'" + p + "'" + ("\\'" + tail);
      WordsQuoted(p, "\\'" + tail, word);
      assert ("\\'" + tail)[2..] == tail;
      QuotedReadsBack(q, rest, Extend(Extend(word, p), "'"));
      ExtendTwice(word, p, "'");
      ExtendTwice(word, p + "'", q);
    }
  }

  /** Standing alone, the quoted form is one word: the original text. */
  lemma QuotedIsOneWord(v: string)
    ensures Words("'" + Escape(v) + "'", None) == Some([v])
  {
    QuotedReadsBack(v, "", None);
    assert "'" + Escape(v) + "'" + "" == "'" + Escape(v) + "'";
    assert Extend(None, v) == Some(v) by { assert "" + v == v; }
  }

  // ----- the whole command -----

  predicate Plain(c: char) { !Special(c) && c !in {' ', '\t', '\\', '\'', '"'} }

  /** Letters, digits and marks that mean nothing to the shell inside a word. */
  predicate PlainText(s: string) {
    forall c :: c in s ==> Plain(c)
  }

  /** And nothing at its start. */
  predicate PlainWord(s: string) { s != "" && PlainText(s) && !StartsSpecial(s[0]) }

  lemma {:induction false} WordsPlain(w: string, rest: string, word: Option<string>)
    requires PlainText(w) && w != "" && (word.None? ==> !StartsSpecial(w[0]))
    ensures Words(w + rest, word) == Words(rest, Extend(word, w))
  {
    var s := w + rest;
    assert s[0] in w && s[1..] == w[1..] + rest;
    if |w| == 1 {
      assert w[1..] + rest == rest && w == [w[0]];
    } else {
      assert PlainText(w[1..]);
      WordsPlain(w[1..], rest, Extend(word, [w[0]]));
      ExtendTwice(word, [w[0]], w[1..]);
      assert [w[0]] + w[1..] == w;
    }
  }

  lemma WordsSpace(rest: string, word: Option<string>)
    ensures Words(" " + rest, word) == Before(Finish(word), Words(rest, None))
  {
    assert (" " + rest)[1..] == rest;
  }

  lemma BeforeNothing(r: Option<seq<string>>)
    ensures Before([], r) == r
  {
    if r.Some? { assert [] + r.value == r.value; }
  }

  /** A backslash at the end of a line joins it to the next. */
  lemma WordsSeparator(rest: string, word: Option<string>)
    ensures Words(SEPARATOR + rest, word) == Before(Finish(word), Words(rest, None))
  {
    assert SEPARATOR + rest == " " + ("\\\n" + (" " + (" " + rest)));
    WordsSpace("\\\n" + (" " + (" " + rest)), word);
    WordsJoin(" " + (" " + rest), None);
    WordsSpace(" " + rest, None);
    WordsSpace(rest, None);
    BeforeNothing(Words(rest, None));
  }

  lemma WordsJoin(rest: string, word: Option<string>)
    ensures Words("\\\n" + rest, word) == Words(rest, word)
  {
    assert ("\\\n" + rest)[2..] == rest;
  }

  function HeaderWords(hs: seq<(string, string)>): seq<string> {
    if hs == [] then [] else ["-H", hs[0].0 + ": " + hs[0].1] + HeaderWords(hs[1..])
  }

  function DataWords(body: string): seq<string> {
    if body == "" then [] else ["--data", body]
  }

  /** The argument list the request stands for. */
  function Argv(req: Request): seq<string> {
    ["curl", "-X", req.verb, req.uri] + HeaderWords(Replayable(req.headers)) + DataWords(req.body)
  }

  lemma PlainExtend(s: string)
    ensures Extend(None, s) == Some(s)
  {
    assert "" + s == s;
  }

  /** One option line: the flag and its quoted value are two words. */
  lemma WordsOfLine(flag: string, prefix: string, value: string, rest: string, last: string)
    requires PlainWord(flag) && QuoteFree(prefix)
    ensures Words(SEPARATOR + (flag + " '" + prefix + Escape(value) + "'") + rest, Some(last)) ==
            Before([last, flag], Words(rest, Some(prefix + value)))
  {
    var tail := "'" + (prefix + Escape(value)) + "'" + rest;
    LineText(flag, prefix + Escape(value), prefix, Escape(value), rest);
    WordsSeparator(flag + (" " + tail), Some(last));
    WordThen(flag, tail);
    EscapeWithPrefix(prefix, value);
    QuotedReadsBack(prefix + value, rest, None);
    PlainExtend(prefix + value);
    BeforeBefore([last], [flag], Words(rest, Some(prefix + value)));
    assert [last] + [flag] == [last, flag];
  }

  lemma LineText(flag: string, inner: string, a: string, b: string, rest: string)
    requires inner == a + b
    ensures SEPARATOR + (flag + " '" + a + b + "'") + rest == SEPARATOR + (flag + (" " + ("'" + inner + "'" + rest)))
  {
    assert " '" == " " + "'";
    assert flag + " '" + a + b + "'" == flag + (" " + ("'" + inner + "'"));
  }

  lemma {:induction false} EscapeWithPrefix(prefix: string, value: string)
    requires QuoteFree(prefix)
    ensures Escape(prefix + value) == prefix + Escape(value)
  {
    if prefix == "" {
      assert prefix + value == value && prefix + Escape(value) == Escape(value);
    } else {
      var s := prefix + value;
      assert s[1..] == prefix[1..] + value && s[..1] == [prefix[0]] && [prefix[0]][0] != "'"[0];
      EscapeWithPrefix(prefix[1..], value);
    }
  }

  ghost predicate QuoteFreeNames(hs: seq<(string, string)>) {
    forall h :: h in hs ==> QuoteFree(h.0)
  }

  lemma BeforeBefore(a: seq<string>, b: seq<string>, r: Option<seq<string>>)
    ensures Before(a, Before(b, r)) == Before(a + b, r)
  {
    if r.Some? { assert a + (b + r.value) == a + b + r.value; }
  }

  lemma WordsOfData(body: string, last: string)
    ensures Words(DataLine(body), Some(last)) == Some([last] + DataWords(body))
  {
    if body == "" {
      assert [last] + DataWords(body) == [last];
    } else {
      DataFlagIsPlain();
      WordsOfLine("--data", "", body, "", last);
      DataLineText(body);
      assert "" + body == body;
      assert [last, "--data"] + [body] == [last] + ["--data", body];
    }
  }

  lemma DataFlagIsPlain()
    ensures PlainWord("--data") && QuoteFree("")
  {
    assert "--data"[0] == '-';
  }

  lemma DataLineText(body: string)
    requires body != ""
    ensures DataLine(body) == SEPARATOR + ("--data" + " '" + "" + Escape(body) + "'") + ""
  {
    assert "--data" + " '" + "" == "--data '";
  }

  lemma {:induction false} WordsOfHeaders(hs: seq<(string, string)>, body: string, last: string)
    requires QuoteFreeNames(hs)
    ensures Words(HeaderLines(hs) + DataLine(body), Some(last)) == Some([last] + HeaderWords(hs) + DataWords(body))
  {
    if hs == [] {
      assert HeaderLines(hs) + DataLine(body) == DataLine(body);
      WordsOfData(body, last);
      assert [last] + HeaderWords(hs) == [last];
    } else {
      var h := hs[0];
      var kv := h.0 + ": " + h.1;
      assert h in hs;
      WordsOfHeader(h, HeaderLines(hs[1..]), DataLine(body), last);
      WordsOfHeaders(hs[1..], body, kv);
      HeaderWordsShape(last, kv, HeaderWords(hs[1..]), DataWords(body));
    }
  }

  lemma WordsOfHeader(h: (string, string), lines: string, data: string, last: string)
    requires QuoteFree(h.0)
    ensures Words(SEPARATOR + HeaderPart(h) + lines + data, Some(last)) ==
            Before([last, "-H"], Words(lines + data, Some(h.0 + ": " + h.1)))
  {
    WordsOfLine("-H", h.0 + ": ", h.1, lines + data, last);
    OptionLine(h, lines, data);
  }

  lemma HeaderWordsShape(last: string, kv: string, ws: seq<string>, data: seq<string>)
    ensures [last, "-H"] + ([kv] + ws + data) == [last] + (["-H", kv] + ws) + data
  {}

  lemma OptionLine(h: (string, string), lines: string, data: string)
    ensures SEPARATOR + HeaderPart(h) + lines + data ==
            SEPARATOR + ("-H" + " '" + (h.0 + ": ") + Escape(h.1) + "'") + (lines + data)
  {}

  lemma WordThen(w: string, rest: string)
    requires PlainWord(w)
    ensures Words(w + (" " + rest), None) == Before([w], Words(rest, None))
  {
    WordsPlain(w, " " + rest, None);
    PlainExtend(w);
    WordsSpace(rest, Some(w));
  }

  lemma ReadCommand(t: string)
    ensures "curl -X " + t == "curl" + (" " + ("-X" + (" " + t)))
    ensures Words("curl -X " + t, None) == Before(["curl", "-X"], Words(t, None))
  {
    CommandShape(t);
    CommandIsPlain();
    WordThen("curl", "-X" + (" " + t));
    WordThen("-X", t);
    BeforeBefore(["curl"], ["-X"], Words(t, None));
    assert ["curl"] + ["-X"] == ["curl", "-X"];
  }

  lemma CommandIsPlain()
    ensures PlainWord("curl") && PlainWord("-X")
  {}

  lemma CommandShape(t: string)
    ensures "curl -X " + t == "curl" + (" " + ("-X" + (" " + t)))
  {}

  lemma FirstWords(verb: string, rest: string)
    requires PlainWord(verb)
    ensures Words("curl -X " + verb + " " + rest, None) == Before(["curl", "-X", verb], Words(rest, None))
  {
    ReadCommand(verb + (" " + rest));
    Reassociate("curl -X ", verb, " " + rest);
    Reassociate("curl -X " + verb, " ", rest);
    WordThen(verb, rest);
    BeforeBefore(["curl", "-X"], [verb], Words(rest, None));
    assert ["curl", "-X"] + [verb] == ["curl", "-X", verb];
  }

  /** The parts that the exporter does not escape need no escaping: then the shell hands
      curl the method, the URL, the headers and the body. */
  lemma PlainPartsRun(req: Request)
    requires PlainWord(req.verb) && QuoteFree(req.uri)
    requires QuoteFreeNames(Replayable(req.headers))
    ensures Words(CurlText(req), None) == Some(Argv(req))
  {
    var hs := Replayable(req.headers);
    var lines := HeaderLines(hs) + DataLine(req.body);
    FirstLine(req);
    QuoteShape("curl -X " + req.verb, req.uri, lines);
    FirstWords(req.verb, "'" + req.uri + "'" + lines);
    WordsQuoted(req.uri, lines, None);
    PlainExtend(req.uri);
    WordsOfHeaders(hs, req.body, req.uri);
    ArgvShape(req.verb, req.uri, HeaderWords(hs), DataWords(req.body));
  }

  lemma ArgvShape(verb: string, uri: string, ws: seq<string>, data: seq<string>)
    ensures ["curl", "-X", verb] + ([uri] + ws + data) == ["curl", "-X", verb, uri] + ws + data
  {}

  // ----- quotes and backslashes are accounted for -----

  /** Double quotes only ever go. */
  ghost function Doubles(s: string): int { Count(s, {'"'}) }

  /** What a text can make: each literal quote or backslash of the words takes a backslash
      of the text, as does each line that is joined. */
  ghost function Supply(s: string): int { Count(s, {'\\'}) - Count(s, {'\n'}) }

  ghost function Demand(s: string): int { Count(s, {'\\', '\''}) - Count(s, {'\n'}) }

  ghost function DoublesAll(ws: seq<string>): int {
    if ws == [] then 0 else Doubles(ws[0]) + DoublesAll(ws[1..])
  }

  ghost function DemandAll(ws: seq<string>): int {
    if ws == [] then 0 else Demand(ws[0]) + DemandAll(ws[1..])
  }

  lemma {:induction false} AllAppend(a: seq<string>, b: seq<string>)
    ensures DoublesAll(a + b) == DoublesAll(a) + DoublesAll(b)
    ensures DemandAll(a + b) == DemandAll(a) + DemandAll(b)
  {
    if a == [] {
      assert a + b == b;
    } else {
      AllAppend(a[1..], b);
      assert (a + b)[1..] == a[1..] + b;
    }
  }

  lemma SumAppend(a: string, b: string)
    ensures Doubles(a + b) == Doubles(a) + Doubles(b)
    ensures Supply(a + b) == Supply(a) + Supply(b)
    ensures Demand(a + b) == Demand(a) + Demand(b)
  {
    CountAppend(a, b, {'"'});
    CountAppend(a, b, {'\\'});
    CountAppend(a, b, {'\n'});
    CountAppend(a, b, {'\\', '\''});
  }

  /** A word in progress. */
  function Held(word: Option<string>): string { if word.Some? then word.value else "" }

  /** The words `ws` account for the text and the word in progress; with `slack`, they
      fall short. */
  ghost predicate Accounts(s: string, word: Option<string>, ws: seq<string>, slack: bool) {
    var d, have := DoublesAll(ws), Doubles(s) + Doubles(Held(word));
    && d <= have
    && (d == have ==>
          DemandAll(ws) <= Supply(s) + Demand(Held(word)) - if slack then 1 else 0)
  }

  lemma BlankAccounts(s: string, word: Option<string>, ws: seq<string>, slack: bool)
    requires s != "" && s[0] in {' ', '\t'} && Accounts(s[1..], None, ws, slack)
    ensures Accounts(s, word, Finish(word) + ws, slack)
  {
    SumAppend([s[0]], s[1..]);
    assert s == [s[0]] + s[1..];
    AllAppend(Finish(word), ws);
    if word.Some? { assert [word.value][1..] == []; }
  }

  lemma JoinAccounts(s: string, word: Option<string>, ws: seq<string>, slack: bool)
    requires |s| >= 2 && s[0] == '\\' && s[1] == '\n' && Accounts(s[2..], word, ws, slack)
    ensures Accounts(s, word, ws, slack)
  {
    assert s == ['\\'] + (['\n'] + s[2..]);
    SumAppend(['\n'], s[2..]);
    SumAppend(['\\'], ['\n'] + s[2..]);
  }

  lemma EscapeAccounts(s: string, word: Option<string>, ws: seq<string>)
    requires |s| >= 2 && s[0] == '\\' && s[1] != '\n' && Accounts(s[2..], Extend(word, [s[1]]), ws, false)
    ensures Accounts(s, word, ws, s[1] != '\'')
  {
    assert s == ['\\'] + ([s[1]] + s[2..]);
    SumAppend([s[1]], s[2..]);
    SumAppend(['\\'], [s[1]] + s[2..]);
    SumAppend(Held(word), [s[1]]);
  }

  lemma PlainAccounts(s: string, word: Option<string>, ws: seq<string>, slack: bool)
    requires s != "" && Plain(s[0]) && Accounts(s[1..], Extend(word, [s[0]]), ws, slack)
    ensures Accounts(s, word, ws, slack)
  {
    assert s == [s[0]] + s[1..];
    SumAppend([s[0]], s[1..]);
    SumAppend(Held(word), [s[0]]);
  }

  lemma {:induction false} SingleQuotedShape(s: string)
    ensures SingleQuoted(s).Some? ==>
              s == SingleQuoted(s).value.0 + "'" + SingleQuoted(s).value.1 && QuoteFree(SingleQuoted(s).value.0)
  {
    if s != "" && s[0] != '\'' {
      SingleQuotedShape(s[1..]);
      assert s == [s[0]] + s[1..];
    }
  }

  /** Without a quote, what a text demands is what it supplies. */
  lemma {:induction false} PlainDemand(s: string)
    requires QuoteFree(s)
    ensures Demand(s) == Supply(s)
  {
    if s != "" {
      assert s == [s[0]] + s[1..];
      PlainDemand(s[1..]);
    }
  }

  lemma SingleAccounts(s: string, text: string, rest: string, word: Option<string>, ws: seq<string>)
    requires s == "'" + (text + "'" + rest) && QuoteFree(text) && Accounts(rest, Extend(word, text), ws, false)
    ensures Accounts(s, word, ws, false)
  {
    SumAppend(text, "'");
    SumAppend(text + "'", rest);
    SumAppend("'", text + "'" + rest);
    SumAppend(Held(word), text);
    PlainDemand(text);
  }

  lemma {:induction false} QuotedLoses(s: string)
    ensures Quoted(s).Some? ==> Doubles(Quoted(s).value.0) + Doubles(Quoted(s).value.1) < Doubles(s)
    decreases |s|
  {
    if Quoted(s).Some? && s[0] != '"' {
      assert s == [s[0]] + s[1..];
      SumAppend([s[0]], s[1..]);
      if s[0] == '\\' && |s| > 1 && s[1] in {'\n', '$', '`', '"', '\\'} {
        QuotedLoses(s[2..]);
        assert s[1..] == [s[1]] + s[2..];
        SumAppend([s[1]], s[2..]);
        if s[1] != '\n' { SumAppend([s[1]], Quoted(s[2..]).value.0); }
      } else {
        QuotedLoses(s[1..]);
        SumAppend([s[0]], Quoted(s[1..]).value.0);
      }
    }
  }

  lemma DoubleAccounts(s: string, word: Option<string>, ws: seq<string>)
    requires s != "" && s[0] == '"' && Quoted(s[1..]).Some?
    requires Accounts(Quoted(s[1..]).value.1, Extend(word, Quoted(s[1..]).value.0), ws, false)
    ensures Accounts(s, word, ws, true)
  {
    assert s == "\"" + s[1..];
    SumAppend("\"", s[1..]);
    QuotedLoses(s[1..]);
    SumAppend(Held(word), Quoted(s[1..]).value.0);
  }

  /** However a text reads, its words account for it. */
  lemma {:induction false} WordsAccount(s: string, word: Option<string>)
    ensures Words(s, word).Some? ==> Accounts(s, word, Words(s, word).value, false)
    decreases |s|
  {
    if Words(s, word).Some? {
      var ws := Words(s, word).value;
      if s == "" {
        AllAppend(Finish(word), []);
        if word.Some? { assert [word.value][1..] == []; }
      } else if s[0] == ' ' || s[0] == '\t' {
        WordsAccount(s[1..], None);
        BlankAccounts(s, word, Words(s[1..], None).value, false);
      } else if s[0] == '\\' && s[1] == '\n' {
        WordsAccount(s[2..], word);
        JoinAccounts(s, word, ws, false);
      } else if s[0] == '\\' {
        WordsAccount(s[2..], Extend(word, [s[1]]));
        EscapeAccounts(s, word, ws);
      } else if s[0] == '\'' {
        var (text, rest) := SingleQuoted(s[1..]).value;
        SingleQuotedShape(s[1..]);
        SingleQuotedShrinks(s[1..]);
        WordsAccount(rest, Extend(word, text));
        SingleAccounts(s, text, rest, word, ws);
      } else if s[0] == '"' {
        var (text, rest) := Quoted(s[1..]).value;
        QuotedShrinks(s[1..]);
        WordsAccount(rest, Extend(word, text));
        DoubleAccounts(s, word, ws);
      } else {
        WordsAccount(s[1..], Extend(word, [s[0]]));
        PlainAccounts(s, word, ws, false);
      }
    }
  }

  // ----- what the exporter writes -----

  ghost function Quotes(s: string): nat { Count(s, {'\''}) }

  ghost function NameQuotes(hs: seq<(string, string)>): nat {
    if hs == [] then 0 else Quotes(hs[0].0) + NameQuotes(hs[1..])
  }

  lemma {:induction false} DemandIsSupply(s: string)
    ensures Demand(s) == Supply(s) + Quotes(s)
  {
    if s != "" { DemandIsSupply(s[1..]); }
  }

  /** Escaping supplies a backslash for every quote. */
  lemma {:induction false} EscapeSupplies(s: string)
    ensures Supply(Escape(s)) == Demand(s) && Doubles(Escape(s)) == Doubles(s)
  {
    if s != "" {
      var c, rest := s[0], Escape(s[1..]);
      EscapeSupplies(s[1..]);
      assert s == [c] + s[1..] && s[..1] == [c];
      if c == '\'' {
        SumAppend("'", "\\''");
        SumAppend("'\\''", rest);
        QuoteSupplies();
      } else {
        assert [c][0] != "'"[0];
        SumAppend([c], rest);
      }
    }
  }

  lemma QuoteSupplies()
    ensures Supply("'\\''") == 1 && Doubles("'\\''") == 0
  {
    SumAppend("'", "\\");
    SumAppend("'" + "\\", "''");
    CountMember("''", {'\\'});
    CountMember("''", {'\n'});
    CountMember("''", {'"'});
    assert "'\\''" == "'" + "\\" + "''" && "'"[1..] == "" && "\\"[1..] == "";
  }

  /** Text without quotes, backslashes and line ends neither supplies nor demands. */
  lemma NeutralText(s: string)
    requires forall c :: c in s ==> c !in {'"', '\\', '\'', '\n'}
    ensures Doubles(s) == Demand(s) == 0 && Supply(s) == 0
  {
    CountMember(s, {'"'});
    CountMember(s, {'\\'});
    CountMember(s, {'\n'});
    CountMember(s, {'\\', '\''});
  }

  lemma SeparatorIsNeutral()
    ensures Supply(SEPARATOR) == 0 && Doubles(SEPARATOR) == 0
  {
    NeutralText(" ");
    NeutralText("  ");
    SumAppend(" ", "\\");
    SumAppend(" " + "\\", "\n");
    SumAppend(" " + "\\" + "\n", "  ");
    assert SEPARATOR == " " + "\\" + "\n" + "  ";
    assert "\\"[1..] == "" && "\n"[1..] == "";
  }

  /** One option line: what stands between its quotes is all it supplies. */
  lemma LineSums(flag: string, inner: string, rest: string)
    requires flag in {"-H", "--data"}
    ensures var line := SEPARATOR + (flag + " '" + inner + "'") + rest;
            Supply(line) == Supply(inner) + Supply(rest) && Doubles(line) == Doubles(inner) + Doubles(rest)
  {
    SeparatorIsNeutral();
    OptionSums(flag, inner);
    SumAppend(SEPARATOR, flag + " '" + inner + "'");
    SumAppend(SEPARATOR + (flag + " '" + inner + "'"), rest);
  }

  lemma OptionSums(flag: string, inner: string)
    requires flag in {"-H", "--data"}
    ensures var option := flag + " '" + inner + "'";
            Supply(option) == Supply(inner) && Doubles(option) == Doubles(inner)
  {
    NeutralText(flag);
    QuoteIsNeutral();
    SumAppend(flag, " '");
    SumAppend(flag + " '", inner);
    SumAppend(flag + " '" + inner, "'");
  }

  lemma PairSums(k: string, v: string)
    ensures Supply(k + ": " + v) == Supply(k) + Supply(v) && Demand(k + ": " + v) == Demand(k) + Demand(v)
    ensures Doubles(k + ": " + v) == Doubles(k) + Doubles(v)
  {
    NeutralText(": ");
    SumAppend(k, ": ");
    SumAppend(k + ": ", v);
  }

  lemma {:induction false} HeaderSums(hs: seq<(string, string)>)
    ensures Supply(HeaderLines(hs)) + NameQuotes(hs) == DemandAll(HeaderWords(hs))
    ensures Doubles(HeaderLines(hs)) == DoublesAll(HeaderWords(hs))
  {
    if hs != [] {
      var h := hs[0];
      HeaderSums(hs[1..]);
      LineSums("-H", h.0 + ": " + Escape(h.1), HeaderLines(hs[1..]));
      assert HeaderPart(h) == "-H" + " '" + (h.0 + ": " + Escape(h.1)) + "'";
      PairSums(h.0, Escape(h.1));
      EscapeSupplies(h.1);
      DemandIsSupply(h.0);
      PairSums(h.0, h.1);
      NeutralText("-H");
      TwoWords("-H", h.0 + ": " + h.1);
      AllAppend(["-H", h.0 + ": " + h.1], HeaderWords(hs[1..]));
    }
  }

  lemma DataLineSums(body: string)
    requires body != ""
    ensures Supply(DataLine(body)) == Supply(Escape(body)) && Doubles(DataLine(body)) == Doubles(Escape(body))
  {
    LineSums("--data", Escape(body), "");
    NeutralText("");
    var line := SEPARATOR + ("--data" + " '" + Escape(body) + "'");
    assert DataLine(body) == line && line + "" == line;
  }

  lemma DataSums(body: string)
    ensures Supply(DataLine(body)) == DemandAll(DataWords(body))
    ensures Doubles(DataLine(body)) == DoublesAll(DataWords(body))
  {
    if body != "" {
      DataLineSums(body);
      EscapeSupplies(body);
      NeutralText("--data");
      TwoWords("--data", body);
    }
  }

  lemma TwoWords(a: string, b: string)
    ensures DoublesAll([a, b]) == Doubles(a) + Doubles(b) && DemandAll([a, b]) == Demand(a) + Demand(b)
  {
    AllAppend([a], [b]);
    assert [a] + [b] == [a, b];
    OneWord(a);
    OneWord(b);
  }

  lemma OneWord(a: string)
    ensures DoublesAll([a]) == Doubles(a) && DemandAll([a]) == Demand(a)
  {
    assert [a][1..] == [];
  }

  /** The text supplies what the argument list demands, but for the quotes in the parts
      that the exporter does not escape. */
  lemma TextSums(req: Request)
    ensures Doubles(CurlText(req)) == DoublesAll(Argv(req))
    ensures Supply(CurlText(req)) + Quotes(req.verb) + Quotes(req.uri) + NameQuotes(Replayable(req.headers)) ==
            DemandAll(Argv(req))
  {
    var hs := Replayable(req.headers);
    FirstSums(req.verb, req.uri);
    HeaderSums(hs);
    DataSums(req.body);
    SumAppend(FirstPart(req), HeaderLines(hs));
    SumAppend(FirstPart(req) + HeaderLines(hs), DataLine(req.body));
    AllAppend(["curl", "-X", req.verb, req.uri], HeaderWords(hs));
    AllAppend(["curl", "-X", req.verb, req.uri] + HeaderWords(hs), DataWords(req.body));
  }

  lemma FirstSums(verb: string, uri: string)
    ensures var text, ws := "curl -X " + verb + " '" + uri + "'", ["curl", "-X", verb, uri];
            Doubles(text) == DoublesAll(ws) && Supply(text) + Quotes(verb) + Quotes(uri) == DemandAll(ws)
  {
    FirstTextSums(verb, uri);
    CommandSums("", []);
    DemandIsSupply(verb);
    DemandIsSupply(uri);
    TwoWords(verb, uri);
    AllAppend(["curl", "-X"], [verb, uri]);
    assert ["curl", "-X", verb, uri] == ["curl", "-X"] + [verb, uri];
    assert ["curl", "-X"] + [] == ["curl", "-X"];
  }

  lemma FirstTextSums(verb: string, uri: string)
    ensures var text := "curl -X " + verb + " '" + uri + "'";
            Doubles(text) == Doubles(verb) + Doubles(uri) && Supply(text) == Supply(verb) + Supply(uri)
  {
    NeutralText("curl -X ");
    QuoteIsNeutral();
    SumAppend("curl -X ", verb);
    SumAppend("curl -X " + verb, " '");
    SumAppend("curl -X " + verb + " '", uri);
    SumAppend("curl -X " + verb + " '" + uri, "'");
  }

  lemma QuoteIsNeutral()
    ensures Supply("'") == 0 && Doubles("'") == 0 && Supply(" '") == 0 && Doubles(" '") == 0
  {
    assert "'"[1..] == "" && " '"[1..] == "'";
  }

  /** The first two words add nothing. */
  lemma CommandSums(t: string, ws: seq<string>)
    ensures Supply("curl -X " + t) == Supply(t) && Doubles("curl -X " + t) == Doubles(t)
    ensures DemandAll(["curl", "-X"] + ws) == DemandAll(ws) && DoublesAll(["curl", "-X"] + ws) == DoublesAll(ws)
  {
    NeutralText("curl -X ");
    SumAppend("curl -X ", t);
    CommandWords(ws);
  }

  lemma CommandWords(ws: seq<string>)
    ensures DemandAll(["curl", "-X"] + ws) == DemandAll(ws) && DoublesAll(["curl", "-X"] + ws) == DoublesAll(ws)
  {
    NeutralText("curl");
    NeutralText("-X");
    TwoWords("curl", "-X");
    AllAppend(["curl", "-X"], ws);
  }

  lemma {:induction false} NoNameQuotes(hs: seq<(string, string)>)
    ensures NameQuotes(hs) == 0 <==> QuoteFreeNames(hs)
  {
    if hs != [] {
      NoNameQuotes(hs[1..]);
      CountMember(hs[0].0, {'\''});
      assert hs == [hs[0]] + hs[1..];
    }
  }

  /** If the shell hands curl the argument list, no part that is written as it is holds a
      quote. */
  lemma RunsWithoutQuotes(req: Request)
    requires Words(CurlText(req), None) == Some(Argv(req))
    ensures QuoteFree(req.verb) && QuoteFree(req.uri) && QuoteFreeNames(Replayable(req.headers))
  {
    WordsAccount(CurlText(req), None);
    TextSums(req);
    CountMember(req.verb, {'\''});
    CountMember(req.uri, {'\''});
    NoNameQuotes(Replayable(req.headers));
  }

  // ----- the method, which is not quoted at all -----

  /** Without quotes and escapes: plain characters, blanks and joined lines. With
      `inside`, the text goes on with a word. */
  predicate Readable(m: string, inside: bool) {
    m == ""
    || (m[0] in {' ', '\t'} && Readable(m[1..], false))
    || (Plain(m[0]) && (inside || !StartsSpecial(m[0])) && Readable(m[1..], true))
    || (|m| > 1 && m[0] == '\\' && m[1] == '\n' && Readable(m[2..], inside))
  }

  /** The words of a readable text. */
  function Pieces(m: string, word: Option<string>): seq<string>
    requires Readable(m, word.Some?)
    decreases |m|
  {
    if m == "" then Finish(word)
    else if m[0] in {' ', '\t'} then Finish(word) + Pieces(m[1..], None)
    else if m[0] == '\\' then Pieces(m[2..], word)
    else Pieces(m[1..], Extend(word, [m[0]]))
  }

  lemma {:induction false} PiecesArePlain(m: string, word: Option<string>)
    requires Readable(m, word.Some?) && (word.Some? ==> PlainWord(word.value))
    ensures forall w :: w in Pieces(m, word) ==> PlainWord(w)
    decreases |m|
  {
    if m == "" {
    } else if m[0] in {' ', '\t'} {
      PiecesArePlain(m[1..], None);
    } else if m[0] == '\\' {
      PiecesArePlain(m[2..], word);
    } else {
      LongerWord(word, m[0]);
      PiecesArePlain(m[1..], Extend(word, [m[0]]));
    }
  }

  lemma LongerWord(word: Option<string>, c: char)
    requires Plain(c) && if word.Some? then PlainWord(word.value) else !StartsSpecial(c)
    ensures PlainWord(Extend(word, [c]).value)
  {
    if word.Some? { assert (word.value + [c])[0] == word.value[0]; }
  }

  lemma {:induction false} ReadPieces(m: string, rest: string, word: Option<string>)
    requires Readable(m, word.Some?)
    ensures Words(m + (" " + rest), word) == Before(Pieces(m, word), Words(rest, None))
    decreases |m|
  {
    var s := m + (" " + rest);
    if m == "" {
      WordsSpace(rest, word);
      assert s == " " + rest;
    } else if m[0] in {' ', '\t'} {
      ReadPieces(m[1..], rest, None);
      assert s[1..] == m[1..] + (" " + rest);
      BeforeBefore(Finish(word), Pieces(m[1..], None), Words(rest, None));
    } else if m[0] == '\\' {
      ReadPieces(m[2..], rest, word);
      assert s[2..] == m[2..] + (" " + rest);
    } else {
      ReadPieces(m[1..], rest, Extend(word, [m[0]]));
      assert s[1..] == m[1..] + (" " + rest);
    }
  }

  /** Any other text without a single quote falls short of the account. */
  lemma {:induction false} UnreadableLoses(m: string, rest: string, word: Option<string>)
    requires QuoteFree(m) && !Readable(m, word.Some?)
    ensures var s := m + (" " + rest);
            Words(s, word).Some? ==> Accounts(s, word, Words(s, word).value, true)
    decreases |m|
  {
    var s := m + (" " + rest);
    assert s[0] == m[0] && s[1..] == m[1..] + (" " + rest);
    if Words(s, word).Some? {
      var ws := Words(s, word).value;
      if m[0] in {' ', '\t'} {
        UnreadableLoses(m[1..], rest, None);
        BlankAccounts(s, word, Words(s[1..], None).value, true);
      } else if m[0] == '\\' && s[1] == '\n' {
        assert s[2..] == m[2..] + (" " + rest);
        UnreadableLoses(m[2..], rest, word);
        JoinAccounts(s, word, ws, true);
      } else if m[0] == '\\' {
        WordsAccount(s[2..], Extend(word, [s[1]]));
        EscapeAccounts(s, word, ws);
        if |m| > 1 { assert s[1] == m[1] && m[1] in m; }
      } else if m[0] == '"' {
        var (text, more) := Quoted(s[1..]).value;
        WordsAccount(more, Extend(word, text));
        DoubleAccounts(s, word, ws);
      } else {
        UnreadableLoses(m[1..], rest, Extend(word, [m[0]]));
        PlainAccounts(s, word, ws, true);
      }
    }
  }

  /** The text behind the method and its blank. */
  function AfterVerb(req: Request): string {
    "'" + req.uri + "'" + (HeaderLines(Replayable(req.headers)) + DataLine(req.body))
  }

  lemma FirstTwoWords(req: Request)
    ensures Words(CurlText(req), None) == Before(["curl", "-X"], Words(req.verb + (" " + AfterVerb(req)), None))
    ensures CurlText(req) == "curl -X " + (req.verb + (" " + AfterVerb(req)))
  {
    FirstLine(req);
    QuoteShape("curl -X " + req.verb, req.uri, HeaderLines(Replayable(req.headers)) + DataLine(req.body));
    FirstLineShape(req.verb, AfterVerb(req));
    ReadCommand(req.verb + (" " + AfterVerb(req)));
  }

  /** The method must then be readable. */
  lemma RunsReadable(req: Request)
    requires Words(CurlText(req), None) == Some(Argv(req))
    ensures Readable(req.verb, false)
  {
    RunsWithoutQuotes(req);
    FirstTwoWords(req);
    var t := req.verb + (" " + AfterVerb(req));
    var ws := Words(t, None).value;
    if !Readable(req.verb, false) {
      UnreadableLoses(req.verb, AfterVerb(req), None);
      TextSums(req);
      CommandSums(t, ws);
    }
  }

  lemma PartsAfterVerb(req: Request)
    requires QuoteFree(req.uri) && QuoteFreeNames(Replayable(req.headers))
    ensures Words(AfterVerb(req), None) ==
            Some([req.uri] + HeaderWords(Replayable(req.headers)) + DataWords(req.body))
  {
    WordsQuoted(req.uri, HeaderLines(Replayable(req.headers)) + DataLine(req.body), None);
    PlainExtend(req.uri);
    WordsOfHeaders(Replayable(req.headers), req.body, req.uri);
  }

  lemma SameLength(pieces: seq<string>, verb: string, rest: seq<string>)
    requires ["curl", "-X"] + (pieces + rest) == ["curl", "-X", verb] + rest
    ensures pieces == [verb]
  {
    assert |pieces| == 1;
    assert (["curl", "-X"] + (pieces + rest))[2] == pieces[0];
  }

  lemma VerbIsOneWord(req: Request)
    requires Words(CurlText(req), None) == Some(Argv(req)) && Readable(req.verb, false)
    requires QuoteFree(req.uri) && QuoteFreeNames(Replayable(req.headers))
    ensures Pieces(req.verb, None) == [req.verb]
  {
    FirstTwoWords(req);
    PartsAfterVerb(req);
    ReadPieces(req.verb, AfterVerb(req), None);
    ArgvShape(req.verb, req.uri, HeaderWords(Replayable(req.headers)), DataWords(req.body));
    SameLength(Pieces(req.verb, None), req.verb,
               [req.uri] + HeaderWords(Replayable(req.headers)) + DataWords(req.body));
  }

  /** The method must then be one plain word. */
  lemma RunsPlainVerb(req: Request)
    requires Words(CurlText(req), None) == Some(Argv(req))
    ensures PlainWord(req.verb)
  {
    RunsWithoutQuotes(req);
    RunsReadable(req);
    VerbIsOneWord(req);
    PiecesArePlain(req.verb, None);
    assert req.verb in Pieces(req.verb, None);
  }

  /** The shell hands curl exactly the method, the URL, the headers and the body, if and
      only if the method is one plain word and neither the URL nor a header name holds a
      single quote: header values and the body may hold anything. */
  lemma ShellRunsTheRequest(req: Request)
    ensures Words(CurlText(req), None) == Some(Argv(req)) <==>
            && PlainWord(req.verb) && QuoteFree(req.uri)
            && QuoteFreeNames(Replayable(req.headers))
  {
    if Words(CurlText(req), None) == Some(Argv(req)) {
      RunsWithoutQuotes(req);
      RunsPlainVerb(req);
    } else if PlainWord(req.verb) && QuoteFree(req.uri) && QuoteFreeNames(Replayable(req.headers)) {
      PlainPartsRun(req);
    }
  }

  /** For instance: `http://a/'` leaves a quote open. */
  lemma QuotedUrlExample()
    ensures Words(CurlText(Request("GET", "http://a/'", [], "")), None) == None
  {
    var req := Request("GET", "http://a/'", [], "");
    FirstTwoWords(req);
    GetIsPlain();
    assert AfterVerb(req) == "'" + "http://a/" + "'" + "'" by { assert HeaderLines([]) + DataLine("") == ""; }
    WordThen("GET", AfterVerb(req));
    HttpIsQuoteFree();
    WordsQuoted("http://a/", "'", None);
    assert "'"[1..] == "";
  }

  lemma GetIsPlain()
    ensures PlainWord("GET")
  {}

  lemma HttpIsQuoteFree()
    ensures QuoteFree("http://a/")
  {}
}
