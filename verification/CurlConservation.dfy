/** A conservation law of the curl import: weighing the characters that flags and header
    separators are made of, the parts of a parsed request never weigh more than the text.
    The exporter writes nothing in excess, so a token that a quote has broken can never be
    made up for by later tokens. */
module CurlConservation {
  import opened Options
  import opened Text
  import opened Counting
  import opened Curl
  import opened CurlTokens
  import opened CurlHeaders
  import opened CurlRoundTrip

  // ----- weights -----

  /** At least one of these stands in every option that sets a part, and the exporter's
      own options hold exactly one; a line end may also be written as an escaped n. */
  const DEAR: set<char> := {':', 'X', 'q', 'H', 'h', 'd', 'n', '\n'}

  ghost function Cost(s: string): nat { Count(s, DEAR) }

  ghost function CostAll(ts: seq<string>): nat { CountAll(ts, DEAR) }

  /** A header takes one option, one colon, its name and its value. */
  ghost function EntryWeight(k: string, v: string): nat { 2 + Cost(k) + Cost(v) }

  ghost function HeaderWeight(m: map<string, string>): nat {
    if m == map[] then 0
    else
      var k :| k in m;
      EntryWeight(k, m[k]) + HeaderWeight(m - {k})
  }

  /** Only a method that starts with a quote is weighed: it must have been read from a token. */
  ghost function VerbWeight(verb: string): nat {
    if verb != "" && verb[0] == '\'' then 1 + Cost(verb) else 0
  }

  ghost function BodyWeight(body: string): nat { if body == "" then 0 else 1 + Cost(body) }

  ghost function ParsedWeight(out: Parsed): nat {
    VerbWeight(out.verb) + HeaderWeight(out.headers) + BodyWeight(out.body) + Cost(out.url)
  }

  lemma {:induction false} WeightPick(m: map<string, string>, k: string)
    requires k in m
    ensures HeaderWeight(m) == EntryWeight(k, m[k]) + HeaderWeight(m - {k})
    decreases |m|
  {
    var first :| first in m && HeaderWeight(m) == EntryWeight(first, m[first]) + HeaderWeight(m - {first});
    if first != k {
      WeightPick(m - {first}, k);
      WeightPick(m - {k}, first);
      assert m - {first} - {k} == m - {k} - {first};
    }
  }

  lemma WeightSet(m: map<string, string>, k: string, v: string)
    ensures HeaderWeight(m[k := v]) + (if k in m then EntryWeight(k, m[k]) else 0) ==
            HeaderWeight(m) + EntryWeight(k, v)
  {
    var next := m[k := v];
    WeightPick(next, k);
    if k in m {
      WeightPick(m, k);
      assert next - {k} == m - {k};
    } else {
      assert next - {k} == m;
    }
  }

  lemma SplitCost(token: string, n: nat)
    requires n < |token| && token[n] == ':'
    ensures Cost(token) == Cost(token[..n]) + 1 + Cost(token[n + 1..])
  {
    assert token == token[..n] + ":" + token[n + 1..];
    CountAppend(token[..n], ":", DEAR);
    CountAppend(token[..n] + ":", token[n + 1..], DEAR);
    assert ":"[1..] == "";
  }

  /** The entry a header token sets costs no more than the token and its option. */
  lemma TokenWeight(token: string, n: nat)
    requires n < |token| && token[n] == ':'
    ensures EntryWeight(Trim(token[..n]), Trim(token[n + 1..])) <= 1 + Cost(token)
  {
    SplitCost(token, n);
    CountTrim(token[..n], DEAR);
    CountTrim(token[n + 1..], DEAR);
  }

  /** Setting a header takes no more than its option and token, and less when it changes
      an entry. */
  lemma AddHeaderWeight(m: map<string, string>, token: string, name: string)
    ensures var next := AddHeader(m, token);
            && HeaderWeight(next) <= HeaderWeight(m) + 1 + Cost(token)
            && (name in m ==> name in next)
            && (name in m && next[name] != m[name] ==> HeaderWeight(next) < HeaderWeight(m) + 1 + Cost(token))
  {
    var n := ColonAt(token);
    if n < |token| {
      TokenWeight(token, n);
      WeightSet(m, Trim(token[..n]), Trim(token[n + 1..]));
    }
  }

  predicate SetsPart(flag: string) { flag in {"-X", "--request", "-H", "--header"} || IsDataFlag(flag) }

  lemma HasDear(s: string, i: nat)
    requires i < |s| && s[i] in DEAR
    ensures Cost(s) >= 1
  {
    CountMember(s, DEAR);
  }

  lemma FlagCost(flag: string)
    requires SetsPart(flag)
    ensures Cost(flag) >= 1
  {
    if flag == "-X" { HasDear("-X", 1); }
    else if flag == "--request" { HasDear("--request", 4); }
    else if flag == "-H" { HasDear("-H", 1); }
    else if flag == "--header" { HasDear("--header", 2); }
    else { DataFlagCost(flag); }
  }

  lemma DataFlagCost(flag: string)
    requires IsDataFlag(flag)
    ensures Cost(flag) >= 1
  {
    if flag == "-d" { HasDear("-d", 1); }
    else { HasDear(flag, 2); }
  }

  /** The cost of the tokens that one turn takes. */
  ghost function Taken(ts: seq<string>, n: nat): nat
    requires ts != []
  {
    Cost(ts[0]) + if n == 2 && |ts| > 1 then Cost(ts[1]) else 0
  }

  lemma TakenSplit(ts: seq<string>, n: nat)
    requires ts != [] && 1 <= n <= 2
    ensures CostAll(ts) == Taken(ts, n) + CostAll(Drop(ts, n))
  {
    if n == 2 && |ts| > 1 {
      assert CostAll(ts[1..]) == Cost(ts[1]) + CostAll(ts[1..][1..]);
      assert ts[1..][1..] == ts[2..];
    } else if n == 2 {
      assert ts[1..] == [];
    }
  }

  /** A change of state is paid for, and one that changes the entry `name` is overpaid. */
  ghost predicate Pays(out: Parsed, next: Parsed, cost: nat, name: string) {
    && ParsedWeight(next) <= ParsedWeight(out) + cost
    && (name in out.headers ==> name in next.headers)
    && (name in out.headers && next.headers[name] != out.headers[name] ==>
          ParsedWeight(next) < ParsedWeight(out) + cost)
  }

  lemma VerbTurn(out: Parsed, verb: string, name: string)
    ensures Pays(out, out.(verb := verb), 1 + Cost(verb), name)
    ensures verb in {"GET", "HEAD"} ==> Pays(out, out.(verb := verb), 0, name)
  {
    assert "GET"[0] == 'G' && "HEAD"[0] == 'H';
  }

  lemma HeaderTurn(out: Parsed, token: string, name: string)
    ensures Pays(out, out.(headers := AddHeader(out.headers, token)), 1 + Cost(token), name)
  {
    AddHeaderWeight(out.headers, token, name);
  }

  lemma BodyTurn(out: Parsed, token: string, name: string)
    ensures Pays(out, out.(body := StripAt(token)), 1 + Cost(token), name)
  {
    CountStripAt(token, DEAR);
  }

  lemma UrlTurn(out: Parsed, token: string, name: string)
    requires out.url == ""
    ensures Pays(out, out.(url := token), Cost(token), name)
  {}

  lemma OtherTurn(ts: seq<string>, out: Parsed, name: string)
    requires ts != [] && !SetsPart(ts[0])
    ensures var (next, n) := Turn(ts[0], Next(ts), out); Pays(out, next, Cost(ts[0]), name)
  {
    VerbTurn(out, "GET", name);
    VerbTurn(out, "HEAD", name);
    if out.url == "" { UrlTurn(out, ts[0], name); }
  }

  lemma TurnWeight(ts: seq<string>, out: Parsed, name: string)
    requires ts != []
    ensures var (next, n) := Turn(ts[0], Next(ts), out); Pays(out, next, Taken(ts, n), name)
  {
    if SetsPart(ts[0]) { SetTurn(ts, out, name); } else { OtherTurn(ts, out, name); }
  }

  lemma SetTurn(ts: seq<string>, out: Parsed, name: string)
    requires ts != [] && SetsPart(ts[0])
    ensures var (next, n) := Turn(ts[0], Next(ts), out); Pays(out, next, Taken(ts, n), name)
  {
    if |ts| > 1 {
      FlagCost(ts[0]);
      PartTurn(ts[0], ts[1], out, name);
    }
  }

  lemma PartTurn(flag: string, token: string, out: Parsed, name: string)
    requires SetsPart(flag)
    ensures Pays(out, Turn(flag, Some(token), out).0, 1 + Cost(token), name)
  {
    if IsDataFlag(flag) { BodyTurn(out, token, name); }
    else if flag in {"-H", "--header"} { HeaderTurn(out, token, name); }
    else { VerbTurn(out, token, name); }
  }

  /** Whatever the tokens, the parts read from them weigh no more than they cost. */
  lemma {:induction false} OptionsWeight(ts: seq<string>, out: Parsed)
    ensures ParsedWeight(ReadOptions(ts, out)) <= ParsedWeight(out) + CostAll(ts)
    decreases |ts|
  {
    if ts != [] {
      var (next, n) := Turn(ts[0], Next(ts), out);
      TurnWeight(ts, out, "");
      TakenSplit(ts, n);
      OptionsWeight(Drop(ts, n), next);
    }
  }

  /** A header whose value changes on the way has cost too much. */
  lemma {:induction false} ReplacedWeight(ts: seq<string>, out: Parsed, name: string)
    requires name in out.headers
    ensures var done := ReadOptions(ts, out);
            && name in done.headers
            && (done.headers[name] != out.headers[name] ==>
                  ParsedWeight(done) < ParsedWeight(out) + CostAll(ts))
    decreases |ts|
  {
    if ts != [] {
      var (next, n) := Turn(ts[0], Next(ts), out);
      TurnWeight(ts, out, name);
      TakenSplit(ts, n);
      ReplacedWeight(Drop(ts, n), next, name);
      OptionsWeight(Drop(ts, n), next);
    }
  }

  // ----- what a request weighs -----

  ghost function Written(hs: seq<Header>): nat {
    if hs == [] then 0 else EntryWeight(hs[0].0, hs[0].1) + Written(hs[1..])
  }

  lemma {:induction false} WrittenAppend(a: seq<Header>, b: seq<Header>)
    ensures Written(a + b) == Written(a) + Written(b)
  {
    if a == [] {
      assert a + b == b;
    } else {
      WrittenAppend(a[1..], b);
      assert (a + b)[1..] == a[1..] + b;
    }
  }

  /** Distinct entries of a map weigh no more than the map. */
  lemma {:induction false} HeldWeight(m: map<string, string>, hs: seq<Header>)
    requires HoldsAll(m, hs) && DistinctNames(hs)
    ensures Written(hs) <= HeaderWeight(m)
  {
    if hs != [] {
      WeightPick(m, hs[0].0);
      HeldWeight(m - {hs[0].0}, hs[1..]);
    }
  }

  lemma MatchedNames(m: map<string, string>, hs: seq<Header>)
    requires Matches(m, hs)
    ensures DistinctNames(hs)
  {
    var all := InsertAll(hs);
    forall k ensures k in m <==> k in all {
      InsertAllKeys(hs, k);
      if Names(hs, k) { var i :| 0 <= i < |hs| && hs[i].0 == k; }
    }
    assert m.Keys == all.Keys;
    assert |m| == |m.Keys| && |all| == |all.Keys|;
    InsertAllSize(hs);
  }

  /** A parsed request that matches weighs as much as what it was exported from. */
  lemma MatchedWeight(done: Parsed, hs: seq<Header>, body: string)
    requires Matches(done.headers, hs) && done.body == body
    ensures VerbWeight(done.verb) + Written(hs) + BodyWeight(body) + Cost(done.url) <= ParsedWeight(done)
  {
    MatchedNames(done.headers, hs);
    HeldWeight(done.headers, hs);
  }

  // ----- what the text costs -----

  /** What stands between the quotes of a header line. */
  function HeaderText(h: Header): string { h.0 + ": " + Escape(h.1) }

  lemma EscapeCost(s: string)
    ensures Cost(Escape(s)) == Cost(s)
  {
    CountMember("'", DEAR);
    CountMember("'\\''", DEAR);
    CountReplace(s, "'", "'\\''", DEAR);
  }

  lemma PairCost(name: string, value: string)
    ensures Cost(name + ": " + value) == Cost(name) + 1 + Cost(value)
  {
    var sep: string := ": ";
    CountMember(" ", DEAR);
    assert sep[1..] == " ";
    CountAppend(name, sep, DEAR);
    CountAppend(name + sep, value, DEAR);
  }

  lemma HeaderTextCost(h: Header)
    ensures 1 + Cost(HeaderText(h)) == EntryWeight(h.0, h.1)
  {
    EscapeCost(h.1);
    PairCost(h.0, Escape(h.1));
  }

  lemma OptionCost(flag: string)
    requires flag in {"-H", "--data"}
    ensures Cost("    " + flag + " '") == 1
  {
    var s := "    " + flag + " '";
    if flag == "-H" {
      CountInside("    -", "H", " '", DEAR);
      assert s == "    -" + "H" + " '" && "H"[1..] == "";
    } else {
      CountInside("    --", "d", "ata '", DEAR);
      assert s == "    --" + "d" + "ata '" && "d"[1..] == "";
    }
  }

  /** One option line costs its option and its value. */
  lemma LineCost(flag: string, value: string, rest: string)
    requires flag in {"-H", "--data"}
    ensures Cost(Normalise(SEPARATOR + flag + " '" + value + "'" + rest)) <= 1 + Cost(value) + Cost(Normalise(rest))
  {
    NormaliseLine(flag, value, rest);
    OptionCost(flag);
    CountMember("'", DEAR);
    NormaliseLoses(value, DEAR);
    var head := "    " + flag + " '";
    CountAppend(head, Normalise(value), DEAR);
    CountAppend(head + Normalise(value), "'", DEAR);
    CountAppend(head + Normalise(value) + "'", Normalise(rest), DEAR);
  }

  lemma HeaderLineText(h: Header, lines: string, rest: string)
    ensures SEPARATOR + HeaderPart(h) + lines + rest == SEPARATOR + "-H" + " '" + HeaderText(h) + "'" + (lines + rest)
  {
    assert HeaderPart(h) == "-H" + " '" + HeaderText(h) + "'";
  }

  lemma {:induction false} LinesCost(hs: seq<Header>, rest: string)
    ensures Cost(Normalise(HeaderLines(hs) + rest)) <= Written(hs) + Cost(Normalise(rest))
  {
    if hs == [] {
      assert HeaderLines(hs) + rest == rest;
    } else {
      LinesCost(hs[1..], rest);
      HeaderLineText(hs[0], HeaderLines(hs[1..]), rest);
      LineCost("-H", HeaderText(hs[0]), HeaderLines(hs[1..]) + rest);
      HeaderTextCost(hs[0]);
    }
  }

  lemma DataCost(body: string)
    ensures Cost(Normalise(DataLine(body))) <= BodyWeight(body)
  {
    if body == "" {
      NormaliseNoBackslash("");
    } else {
      EscapeCost(body);
      LineCost("--data", Escape(body), "");
      NormaliseNoBackslash("");
      DataLineShape(Escape(body), "");
    }
  }

  /** Everything after the URL. */
  function OptionText(hs: seq<Header>, body: string): string { HeaderLines(hs) + DataLine(body) }

  lemma OptionTextCost(hs: seq<Header>, body: string)
    ensures Cost(Normalise(OptionText(hs, body))) <= Written(hs) + BodyWeight(body)
  {
    LinesCost(hs, DataLine(body));
    DataCost(body);
  }

  // ----- the first broken header -----

  /** The headers split at the first that holds a quote, and its text at the quote. */
  datatype Break = Break(front: seq<Header>, h: Header, back: seq<Header>, t: string, u: string)

  ghost predicate Breaks(hs: seq<Header>, b: Break) {
    && hs == b.front + [b.h] + b.back && QuoteFreeHeaders(b.front)
    && HeaderText(b.h) == b.t + "'" + b.u && QuoteFree(b.t)
  }

  lemma QuoteInText(h: Header)
    requires !QuoteFree(h.0) || !QuoteFree(h.1)
    ensures !QuoteFree(HeaderText(h))
  {
    if !QuoteFree(h.0) {
      assert HeaderText(h) == h.0 + (": " + Escape(h.1));
    } else {
      var p, q := SplitAtQuote(h.1);
      EscapeAtQuote(p, q);
      assert HeaderText(h) == h.0 + ": " + (p + "'\\''" + Escape(q));
      assert HeaderText(h)[|h.0| + 2 + |p|] == '\'';
    }
  }

  lemma {:induction false} FindBreak(hs: seq<Header>) returns (b: Break)
    requires !QuoteFreeHeaders(hs)
    ensures Breaks(hs, b)
  {
    var h := hs[0];
    assert h in hs && hs == [h] + hs[1..];
    if QuoteFree(h.0) && QuoteFree(h.1) {
      b := FindBreak(hs[1..]);
      assert hs == ([h] + b.front) + [b.h] + b.back;
      b := b.(front := [h] + b.front);
    } else {
      QuoteInText(h);
      var t, u := SplitAtQuote(HeaderText(h));
      b := Break([], h, hs[1..], t, u);
      assert [] + [h] + hs[1..] == hs;
    }
  }

  /** The quote stands in the name, or else behind the name and the colon, in the value. */
  lemma BreakPlace(h: Header, t: string, u: string) returns (p: string)
    requires HeaderText(h) == t + "'" + u && QuoteFree(t)
    ensures !QuoteFree(h.0) ==> t <= h.0
    ensures QuoteFree(h.0) ==> t == h.0 + ": " + p && QuoteFree(p) && !QuoteFree(h.1)
  {
    var text := HeaderText(h);
    assert text[|t|] == '\'' && text[..|t|] == t;
    assert forall k :: 0 <= k < |t| ==> t[k] == text[k] && t[k] != '\'';
    p := "";
    NoQuoteInText(h);
    if QuoteFree(h.0) {
      assert forall i :: 0 <= i < |h.0| + 2 ==> text[i] != '\'';
      p := t[|h.0| + 2..];
      assert t == text[..|h.0| + 2] + p && text[..|h.0| + 2] == h.0 + ": ";
    } else {
      var i :| 0 <= i < |h.0| && h.0[i] == '\'';
      assert text[i] == h.0[i];
      assert t == h.0[..|t|];
    }
  }

  lemma NoQuoteInText(h: Header)
    ensures QuoteFree(h.0) && QuoteFree(h.1) ==> QuoteFree(HeaderText(h))
  {
    if QuoteFree(h.1) { EscapePlain(h.1); }
  }

  /** The text after the broken token. */
  function RestOf(b: Break, body: string): string { b.u + "'" + OptionText(b.back, body) }

  lemma {:induction false} LinesJoin(a: seq<Header>, b: seq<Header>)
    ensures HeaderLines(a + b) == HeaderLines(a) + HeaderLines(b)
  {
    if b == [] {
      assert a + b == a;
    } else {
      var n := |b| - 1;
      LinesJoin(a, b[..n]);
      assert a + b == (a + b[..n]) + [b[n]] && b == b[..n] + [b[n]];
      HeaderLinesAppend(a + b[..n], b[n]);
      HeaderLinesAppend(b[..n], b[n]);
      Reassociate(HeaderLines(a), HeaderLines(b[..n]), SEPARATOR + HeaderPart(b[n]));
    }
  }

  lemma BrokenLineText(b: Break, rest: string)
    requires HeaderText(b.h) == b.t + "'" + b.u
    ensures SEPARATOR + HeaderPart(b.h) + rest == SEPARATOR + "-H" + " '" + b.t + "'" + (b.u + "'" + rest)
  {
    HeaderLineText(b.h, "", rest);
    assert "" + rest == rest && SEPARATOR + HeaderPart(b.h) + "" == SEPARATOR + HeaderPart(b.h);
  }

  /** The options as the tokeniser sees them. */
  lemma BrokenText(hs: seq<Header>, b: Break, body: string)
    requires Breaks(hs, b)
    ensures OptionText(hs, body) == HeaderLines(b.front) + (SEPARATOR + "-H" + " '" + b.t + "'" + RestOf(b, body))
  {
    var line, rest := SEPARATOR + HeaderPart(b.h), OptionText(b.back, body);
    LinesJoin(b.front + [b.h], b.back);
    HeaderLinesAppend(b.front, b.h);
    Reassociate(HeaderLines(b.front) + line, HeaderLines(b.back), DataLine(body));
    Reassociate(HeaderLines(b.front), line, rest);
    BrokenLineText(b, rest);
  }

  lemma RestCost(b: Break, body: string)
    ensures Cost(Normalise(RestOf(b, body))) <= Cost(b.u) + Written(b.back) + BodyWeight(body)
  {
    var rest := OptionText(b.back, body);
    NormaliseAround(b.u, '\'', rest);
    NormaliseLoses(b.u, DEAR);
    OptionTextCost(b.back, body);
    QuotedPairCost(Normalise(b.u), Normalise(rest));
  }

  lemma QuotedPairCost(a: string, b: string)
    ensures Cost(a + "'" + b) == Cost(a) + Cost(b)
  {
    CountMember("'", DEAR);
    CountAppend(a, "'", DEAR);
    CountAppend(a + "'", b, DEAR);
  }

  /** The headers read from quote-free lines weigh no more than what was written. */
  lemma {:induction false} AddAllWeight(hs: seq<Header>)
    ensures HeaderWeight(AddAll(map[], hs)) <= Written(hs) && CleanNames(AddAll(map[], hs))
  {
    if hs != [] {
      var n := |hs| - 1;
      AddAllWeight(hs[..n]);
      AddOneWeight(AddAll(map[], hs[..n]), hs[n]);
      WrittenAppend(hs[..n], [hs[n]]);
      assert hs == hs[..n] + [hs[n]];
    }
  }

  lemma AddOneWeight(m: map<string, string>, h: Header)
    requires CleanNames(m)
    ensures var next := AddHeader(m, Normalise(HeaderValue(h)));
            HeaderWeight(next) <= HeaderWeight(m) + EntryWeight(h.0, h.1) && CleanNames(next)
  {
    var token := Normalise(HeaderValue(h));
    AddHeaderWeight(m, token, "");
    AddHeaderClean(m, token);
    NormaliseLoses(HeaderValue(h), DEAR);
    PairCost(h.0, h.1);
  }

  // ----- what the parser can make a name -----

  ghost predicate CleanNames(m: map<string, string>) {
    forall k :: k in m ==> ':' !in k && Trimmed(k)
  }

  lemma AddHeaderClean(m: map<string, string>, token: string)
    requires CleanNames(m)
    ensures CleanNames(AddHeader(m, token))
  {
    var n := ColonAt(token);
    if n < |token| {
      TrimMembers(token[..n], ':');
      TrimIsTrimmed(token[..n]);
    }
  }

  lemma {:induction false} OptionsClean(ts: seq<string>, out: Parsed)
    requires CleanNames(out.headers)
    ensures CleanNames(ReadOptions(ts, out).headers)
    decreases |ts|
  {
    if ts != [] {
      var (next, n) := Turn(ts[0], Next(ts), out);
      if |ts| > 1 { AddHeaderClean(out.headers, ts[1]); }
      OptionsClean(Drop(ts, n), next);
    }
  }

  // ----- the broken token is a loss -----

  /** The state right after the broken token. */
  function Broken(b: Break, out: Parsed): Parsed {
    out.(headers := AddHeader(AddAll(map[], b.front), Normalise(b.t)))
  }

  lemma BrokenTokens(hs: seq<Header>, b: Break, body: string, out: Parsed)
    requires Breaks(hs, b) && out.headers == map[]
    ensures var ts, later := Tokens(Normalise(OptionText(hs, body))), Tokens(Normalise(RestOf(b, body)));
            && (ts.Ok? <==> later.Ok?)
            && (ts.Ok? ==> ReadOptions(ts.value, out) == ReadOptions(later.value, Broken(b, out)))
  {
    var rest := RestOf(b, body);
    BrokenText(hs, b, body);
    TokensOfHeaders(b.front, SEPARATOR + "-H" + " '" + b.t + "'" + rest);
    QuotesNormalise(b.t);
    TokensOfLine("-H", b.t, rest);
    var later := Tokens(Normalise(rest));
    if later.Ok? {
      ReadHeaders(b.front, ["-H", Normalise(b.t)] + later.value, out);
      ReadFlag("-H", Normalise(b.t), later.value, out.(headers := AddAll(map[], b.front)));
    }
  }

  lemma BrokenWeight(b: Break, out: Parsed)
    ensures HeaderWeight(Broken(b, out).headers) <= Written(b.front) + 1 + Cost(Normalise(b.t))
    ensures ':' !in b.t ==> HeaderWeight(Broken(b, out).headers) <= Written(b.front)
    ensures CleanNames(Broken(b, out).headers)
  {
    var token := Normalise(b.t);
    AddAllWeight(b.front);
    AddHeaderWeight(AddAll(map[], b.front), token, "");
    AddHeaderClean(AddAll(map[], b.front), token);
    ColonsNormalise(b.t);
  }

  lemma BreakWeight(hs: seq<Header>, b: Break)
    requires Breaks(hs, b)
    ensures Written(hs) == Written(b.front) + 1 + Cost(b.t) + Cost(b.u) + Written(b.back)
  {
    WrittenAppend(b.front + [b.h], b.back);
    WrittenAppend(b.front, [b.h]);
    assert [b.h][1..] == [];
    HeaderTextCost(b.h);
    CountMember("'", DEAR);
    CountAppend(b.t, "'", DEAR);
    CountAppend(b.t + "'", b.u, DEAR);
  }

  /** A quote in the value: the token sets the header's own name, to a value without it. */
  lemma BrokenEntry(b: Break, out: Parsed, p: string)
    requires ':' !in b.h.0 && Trimmed(b.h.0) && Unbroken(b.h.0)
    requires b.t == b.h.0 + ": " + p && QuoteFree(p)
    ensures b.h.0 in Broken(b, out).headers && QuoteFree(Broken(b, out).headers[b.h.0])
  {
    var h := (b.h.0, p);
    AddOne(AddAll(map[], b.front), h);
    ParsedParts(h);
    NormaliseFixed(b.h.0);
    TrimFixed(b.h.0);
    QuotesNormalise(p);
    TrimMembers(Normalise(p), '\'');
  }

  /** The token of the header with the quote sets nothing, or was written at a loss, or sets
      something that must be replaced. */
  lemma BrokenIsLoss(hs: seq<Header>, b: Break, ts: seq<string>, out: Parsed)
    requires Breaks(hs, b) && Matches(ReadOptions(ts, Broken(b, out)).headers, hs)
    ensures HeaderWeight(Broken(b, out).headers) < Written(b.front) + 1 + Cost(b.t)
            || ParsedWeight(ReadOptions(ts, Broken(b, out))) < ParsedWeight(Broken(b, out)) + CostAll(ts)
  {
    BrokenWeight(b, out);
    OptionsClean(ts, Broken(b, out));
    assert hs[|b.front|] == b.h;
    if !QuoteFree(b.h.0) || !Unbroken(b.h.0) {
      NameIsLoss(b, out);
    } else {
      ValueIsLoss(b, ts, out);
    }
  }

  /** A quote or a line continuation in the name. */
  lemma NameIsLoss(b: Break, out: Parsed)
    requires HeaderText(b.h) == b.t + "'" + b.u && QuoteFree(b.t) && ':' !in b.h.0
    requires !QuoteFree(b.h.0) || !Unbroken(b.h.0)
    ensures HeaderWeight(Broken(b, out).headers) < Written(b.front) + 1 + Cost(b.t)
  {
    var p := BreakPlace(b.h, b.t, b.u);
    BrokenWeight(b, out);
    if !QuoteFree(b.h.0) {
      assert ':' !in b.t;
    } else {
      assert b.t == b.h.0 + (": " + p);
      if Unbroken(b.t) { UnbrokenPart(b.h.0, ": " + p); }
      NormaliseLoses(b.t, DEAR);
    }
  }

  /** A quote in the value. */
  lemma ValueIsLoss(b: Break, ts: seq<string>, out: Parsed)
    requires HeaderText(b.h) == b.t + "'" + b.u && QuoteFree(b.t)
    requires ':' !in b.h.0 && Trimmed(b.h.0) && Unbroken(b.h.0) && QuoteFree(b.h.0)
    requires var m := ReadOptions(ts, Broken(b, out)).headers; b.h.0 in m && m[b.h.0] == b.h.1
    ensures ParsedWeight(ReadOptions(ts, Broken(b, out))) < ParsedWeight(Broken(b, out)) + CostAll(ts)
  {
    var p := BreakPlace(b.h, b.t, b.u);
    BrokenEntry(b, out, p);
    ReplacedWeight(ts, Broken(b, out), b.h.0);
  }

  /** Whatever is read after the broken token, the headers do not come back together
      with the body and the URL. */
  lemma BrokenNeverMatches(hs: seq<Header>, b: Break, body: string, ts: seq<string>, out: Parsed)
    requires Breaks(hs, b) && out.body == "" && VerbWeight(out.verb) == 0
    requires Tokens(Normalise(RestOf(b, body))) == Ok(ts)
    ensures var done := ReadOptions(ts, Broken(b, out));
            !(Matches(done.headers, hs) && done.body == body && Cost(done.url) >= Cost(out.url))
  {
    var done := ReadOptions(ts, Broken(b, out));
    if Matches(done.headers, hs) && done.body == body {
      MatchedWeight(done, hs, body);
      LossBound(hs, b, ts, out);
      BreakWeight(hs, b);
      LaterCost(b, body, ts);
    }
  }

  lemma LaterCost(b: Break, body: string, ts: seq<string>)
    requires Tokens(Normalise(RestOf(b, body))) == Ok(ts)
    ensures CostAll(ts) <= Cost(b.u) + Written(b.back) + BodyWeight(body)
  {
    RestCost(b, body);
    CountTokens(Normalise(RestOf(b, body)), DEAR);
  }

  /** Together, the broken token and what follows it weigh less than they cost. */
  lemma LossBound(hs: seq<Header>, b: Break, ts: seq<string>, out: Parsed)
    requires Breaks(hs, b) && out.body == "" && VerbWeight(out.verb) == 0
    requires Matches(ReadOptions(ts, Broken(b, out)).headers, hs)
    ensures ParsedWeight(ReadOptions(ts, Broken(b, out))) <
            Written(b.front) + 1 + Cost(b.t) + Cost(out.url) + CostAll(ts)
  {
    BrokenIsLoss(hs, b, ts, out);
    OptionsWeight(ts, Broken(b, out));
    BrokenTotal(b, out);
  }

  lemma BrokenTotal(b: Break, out: Parsed)
    requires out.body == "" && VerbWeight(out.verb) == 0
    ensures ParsedWeight(Broken(b, out)) == HeaderWeight(Broken(b, out).headers) + Cost(out.url)
    ensures HeaderWeight(Broken(b, out).headers) <= Written(b.front) + 1 + Cost(b.t)
  {
    BrokenWeight(b, out);
    NormaliseLoses(b.t, DEAR);
  }

  // ----- a quote in a header -----

  /** The state once the URL has been read. */
  function AtUrl(req: Request): Parsed { EMPTY.(verb := req.verb, url := Normalise(req.uri)) }

  lemma CheckKeeps(done: Parsed, validUrl: string -> bool)
    ensures var r := Check(done, validUrl);
            r.Ok? ==> r.value.headers == done.headers && r.value.body == done.body && r.value.url == done.url
                      && (r.value.verb == done.verb || (done.verb == "" && r.value.verb in {"GET", "POST"}))
  {}

  lemma ParseBroken(req: Request, validUrl: string -> bool, b: Break)
    requires UrlLaw(validUrl) && PlainWord(req.verb) && QuoteFree(req.uri) && validUrl(req.uri)
    requires Breaks(Replayable(req.headers), b)
    ensures var r, later := Parse(CurlText(req), validUrl), Tokens(Normalise(RestOf(b, req.body)));
            r.Ok? ==> later.Ok? && r == Check(ReadOptions(later.value, Broken(b, AtUrl(req))), validUrl)
  {
    FirstLine(req);
    NormaliseFirstChar(req.uri);
    ParseAfterUrl(req, req.uri, OptionText(Replayable(req.headers), req.body), validUrl);
    BrokenTokens(Replayable(req.headers), b, req.body, AtUrl(req));
  }

  lemma BreakNotGivenBack(req: Request, validUrl: string -> bool, b: Break)
    requires UrlLaw(validUrl) && PlainWord(req.verb) && QuoteFree(req.uri) && validUrl(req.uri)
    requires Breaks(Replayable(req.headers), b)
    ensures !RoundTrips(req, validUrl)
  {
    ParseBroken(req, validUrl, b);
    var later := Tokens(Normalise(RestOf(b, req.body)));
    if Parse(CurlText(req), validUrl).Ok? { CheckedNeverMatches(req, validUrl, b, later.value); }
  }

  lemma CheckedNeverMatches(req: Request, validUrl: string -> bool, b: Break, ts: seq<string>)
    requires Breaks(Replayable(req.headers), b) && Tokens(Normalise(RestOf(b, req.body))) == Ok(ts)
    requires VerbWeight(req.verb) == 0
    ensures !GivesBack(Check(ReadOptions(ts, Broken(b, AtUrl(req))), validUrl), req)
  {
    NormaliseLoses(req.uri, DEAR);
    CheckKeeps(ReadOptions(ts, Broken(b, AtUrl(req))), validUrl);
    BrokenNeverMatches(Replayable(req.headers), b, req.body, ts, AtUrl(req));
  }

  /** A single quote in a header name or value, whatever the other headers and the body. */
  lemma QuotedHeaderFails(req: Request, validUrl: string -> bool)
    requires UrlLaw(validUrl) && ValidVerb(req.verb) && req.verb[0] != '\''
    requires QuoteFree(req.uri) && validUrl(req.uri) && !QuoteFreeHeaders(Replayable(req.headers))
    ensures !RoundTrips(req, validUrl)
  {
    var b := FindBreak(Replayable(req.headers));
    VerbIsWord(req.verb);
    BreakNotGivenBack(req, validUrl, b);
  }

  // ----- a method that starts with a quote -----

  lemma {:induction false} SingleQuotedIsPlain(s: string)
    ensures SingleQuoted(s).Some? ==> QuoteFree(SingleQuoted(s).value.0)
  {
    if s != "" && s[0] != '\'' { SingleQuotedIsPlain(s[1..]); }
  }

  lemma VerbTextShape(verb: string, rest: string)
    requires verb != "" && verb[0] == '\''
    ensures "curl -X " + verb + " " + rest == "curl" + (" " + ("-X" + (" " + ("'" + (verb[1..] + " " + rest)))))
  {
    FirstLineShape(verb, rest);
    assert verb == "'" + verb[1..];
  }

  /** The exported text behind the opening quote of the method, normalised. */
  function AfterVerbQuote(req: Request): string
    requires req.verb != ""
  {
    req.verb[1..] + " " +
    ("'" + Normalise(req.uri) + "'" + Normalise(OptionText(Replayable(req.headers), req.body)))
  }

  lemma NormalisedText(req: Request)
    requires req.verb != "" && req.verb[0] == '\'' && '\\' !in req.verb
    ensures Normalise(Trim(CurlText(req))) == "curl" + (" " + ("-X" + (" " + ("'" + AfterVerbQuote(req)))))
  {
    TextIsTrimmed(req);
    FirstLine(req);
    NormaliseFirst(req.verb, req.uri, OptionText(Replayable(req.headers), req.body));
    VerbTextShape(req.verb,
                  "'" + Normalise(req.uri) + "'" + Normalise(OptionText(Replayable(req.headers), req.body)));
  }

  lemma AfterVerbCost(req: Request)
    requires req.verb != "" && req.verb[0] == '\''
    ensures Cost(AfterVerbQuote(req)) <=
            Cost(req.verb) + Cost(req.uri) + Written(Replayable(req.headers)) + BodyWeight(req.body)
  {
    var uri, rest := Normalise(req.uri), Normalise(OptionText(Replayable(req.headers), req.body));
    CountMember("'", DEAR);
    CountMember(" ", DEAR);
    assert req.verb == "'" + req.verb[1..];
    CountAppend("'", req.verb[1..], DEAR);
    NormaliseLoses(req.uri, DEAR);
    OptionTextCost(Replayable(req.headers), req.body);
    CountAppend("'", uri, DEAR);
    CountAppend("'" + uri, "'", DEAR);
    CountAppend("'" + uri + "'", rest, DEAR);
    CountAppend(req.verb[1..], " ", DEAR);
    CountAppend(req.verb[1..] + " ", "'" + uri + "'" + rest, DEAR);
  }

  /** The first tokens when the method starts with a quote: the method token holds none. */
  lemma QuotedVerbTokens(s: string, validUrl: string -> bool)
    ensures var all := Tokens("curl" + (" " + ("-X" + (" " + ("'" + s)))));
            all.Ok? ==> SingleQuoted(s).Some? && Tokens(SingleQuoted(s).value.1).Ok?
                        && ParseTokens(all.value, validUrl) ==
                           Check(ReadOptions(Tokens(SingleQuoted(s).value.1).value,
                                             EMPTY.(verb := SingleQuoted(s).value.0)), validUrl)
  {
    var q := "'" + s;
    assert q[1..] == s;
    TokensWordThen("-X", q);
    TokensWordThen("curl", "-X" + (" " + q));
    if Tokens(q).Ok? {
      ParseVerbTokens(SingleQuoted(s).value.0, Tokens(SingleQuoted(s).value.1).value, validUrl);
    }
  }

  lemma ParseVerbTokens(a: string, ts: seq<string>, validUrl: string -> bool)
    ensures ParseTokens(["curl"] + (["-X"] + ([a] + ts)), validUrl) ==
            Check(ReadOptions(ts, EMPTY.(verb := a)), validUrl)
  {
    BaseNamePlain("curl");
    assert (["curl"] + (["-X"] + ([a] + ts)))[1..] == ["-X", a] + ts;
    ReadFlag("-X", a, ts, EMPTY);
  }

  lemma QuotedVerbWeight(req: Request, s: string, done: Parsed)
    requires req.verb != "" && req.verb[0] == '\'' && s == AfterVerbQuote(req)
    requires SingleQuoted(s).Some? && Tokens(SingleQuoted(s).value.1).Ok?
    requires done == ReadOptions(Tokens(SingleQuoted(s).value.1).value, EMPTY.(verb := SingleQuoted(s).value.0))
    ensures ParsedWeight(done) <=
            Cost(req.verb) + Cost(req.uri) + Written(Replayable(req.headers)) + BodyWeight(req.body)
  {
    var (a, rest) := SingleQuoted(s).value;
    SingleQuotedIsPlain(s);
    OptionsWeight(Tokens(rest).value, EMPTY.(verb := a));
    CountTokens(rest, DEAR);
    CountSingleQuoted(s, DEAR);
    AfterVerbCost(req);
  }

  /** A method that starts with a quote, whatever the rest. */
  lemma QuotedVerbFails(req: Request, validUrl: string -> bool)
    requires ValidVerb(req.verb) && req.verb[0] == '\''
    ensures !RoundTrips(req, validUrl)
  {
    var s := AfterVerbQuote(req);
    assert !TokenChar('\\');
    NormalisedText(req);
    QuotedVerbTokens(s, validUrl);
    var r := Parse(CurlText(req), validUrl);
    if r.Ok? {
      var done := ReadOptions(Tokens(SingleQuoted(s).value.1).value, EMPTY.(verb := SingleQuoted(s).value.0));
      CheckKeeps(done, validUrl);
      QuotedVerbWeight(req, s, done);
      if Matches(done.headers, Replayable(req.headers)) && done.body == req.body {
        MatchedWeight(done, Replayable(req.headers), req.body);
      }
    }
  }
}
