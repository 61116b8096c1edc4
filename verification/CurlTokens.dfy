/** How the curl import reads the text of the raw curl export: line continuations,
    then tokens. */
module CurlTokens {
  import opened Options
  import opened Text
  import opened Replacing
  import opened Counting
  import opened Curl

  const LF := "\\\n"
  const CRLF := "\\\r\n"

  // ----- line continuations -----

  /** Free of the sequences that the import rewrites as line continuations. */
  ghost predicate Unbroken(s: string) { !Contains(s, LF) && !Contains(s, CRLF) }

  lemma BreaksKeepApart()
    ensures Apart(LF, " ") && Apart(CRLF, " ")
  {
    forall d | -|LF| < d < 1 ensures !AgreeAt(LF, " ", d) { assert LF[-d] != " "[d + -d]; }
    forall d | -|CRLF| < d < 1 ensures !AgreeAt(CRLF, " ", d) { assert CRLF[-d] != " "[d + -d]; }
  }

  lemma NormalisedIsUnbroken(s: string)
    ensures Unbroken(Normalise(s))
  {
    BreaksKeepApart();
    Removed(s, LF, " ");
    KeptOut(Replace(s, LF, " "), CRLF, " ", LF);
    Removed(Replace(s, LF, " "), CRLF, " ");
  }

  /** Normalising changes nothing exactly on unbroken strings. */
  lemma NormaliseFixed(s: string)
    ensures Normalise(s) == s <==> Unbroken(s)
  {
    NormalisedIsUnbroken(s);
    if Unbroken(s) {
      ReplaceNothing(s, LF, " ");
      ReplaceNothing(s, CRLF, " ");
    }
  }

  lemma NormaliseAround(a: string, c: char, b: string)
    requires c != '\\' && c != '\n' && c != '\r'
    ensures Normalise(a + [c] + b) == Normalise(a) + [c] + Normalise(b)
  {
    ReplaceAround(a, c, b, LF, " ");
    ReplaceAround(Replace(a, LF, " "), c, Replace(b, LF, " "), CRLF, " ");
  }

  lemma NormaliseNoBackslash(s: string)
    requires '\\' !in s
    ensures Normalise(s) == s
  {
    forall at | 0 <= at <= |s| ensures !OccursAt(s, LF, at) && !OccursAt(s, CRLF, at) {
      assert at + 2 <= |s| ==> s[at..at + 2][0] == s[at];
      assert at + 3 <= |s| ==> s[at..at + 3][0] == s[at];
    }
    NormaliseFixed(s);
  }

  /** Around a quoted stretch, the three pieces are normalised separately. */
  lemma NormaliseQuoted(before: string, inner: string, after: string)
    ensures Normalise(before + "'" + inner + "'" + after) ==
            Normalise(before) + "'" + Normalise(inner) + "'" + Normalise(after)
  {
    NormaliseAround(before + "'" + inner, '\'', after);
    NormaliseAround(before, '\'', inner);
  }

  lemma UnbrokenPart(a: string, b: string)
    requires Unbroken(a + b)
    ensures Unbroken(a) && Unbroken(b)
  {
    forall at | 0 <= at <= |a| ensures !OccursAt(a, LF, at) && !OccursAt(a, CRLF, at) {
      OccursInPart(a, b, LF, at);
      OccursInPart(a, b, CRLF, at);
    }
    forall at | 0 <= at <= |b| ensures !OccursAt(b, LF, at) && !OccursAt(b, CRLF, at) {
      OccursInPart(a, b, LF, at);
      OccursInPart(a, b, CRLF, at);
    }
  }

  lemma BreakIsSpace()
    ensures Normalise("\\\n") == " "
  {
    assert Replace("\\\n", LF, " ") == " " + Replace("", LF, " ");
  }

  lemma SeparatorIsSpaces()
    ensures Normalise(SEPARATOR) == "    "
  {
    BreakIsSpace();
    NormaliseNoBackslash("");
    NormaliseNoBackslash(" ");
    NormaliseAround("", ' ', "\\\n  ");
    NormaliseAround("\\\n", ' ', " ");
    assert SEPARATOR == "" + " " + "\\\n  ";
    assert "\\\n  " == "\\\n" + " " + " ";
  }

  lemma NormaliseSeparator(rest: string)
    requires '\\' !in rest
    ensures Normalise(SEPARATOR + "-" + rest) == "    -" + rest
  {
    NormaliseAround(SEPARATOR, '-', rest);
    NormaliseNoBackslash(rest);
    SeparatorIsSpaces();
  }

  // ----- tokens of the exported text -----

  lemma {:induction false} SingleQuotedPlain(q: string, rest: string)
    requires '\'' !in q
    ensures SingleQuoted(q + "'" + rest) == Some((q, rest))
  {
    var s := q + "'" + rest;
    if q == "" {
      assert s[1..] == rest;
    } else {
      SingleQuotedPlain(q[1..], rest);
      assert s[1..] == q[1..] + "'" + rest;
      assert q == [q[0]] + q[1..];
    }
  }

  lemma TokensQuoted(q: string, rest: string)
    requires '\'' !in q
    ensures Tokens("'" + q + "'" + rest) == Prepend(q, Tokens(rest))
  {
    var s := "'" + q + "'" + rest;
    assert s[1..] == q + "'" + rest;
    SingleQuotedPlain(q, rest);
  }

  lemma {:induction false} WordPlain(w: string, rest: string)
    requires ' ' !in w && '\t' !in w && EndsWord(rest)
    ensures Word(w + rest) == (w, rest)
  {
    if w == "" {
      assert w + rest == rest;
    } else {
      WordPlain(w[1..], rest);
      assert (w + rest)[1..] == w[1..] + rest;
      assert w == [w[0]] + w[1..];
    }
  }

  lemma TokensWord(w: string, rest: string)
    requires w != "" && ' ' !in w && '\t' !in w && EndsWord(rest)
    requires !IsWhitespace(w[0]) && w[0] != '\'' && w[0] != '"'
    ensures Tokens(w + rest) == Prepend(w, Tokens(rest))
  {
    WordPlain(w, rest);
    assert (w + rest)[0] == w[0];
  }

  lemma TokensSpace(rest: string)
    ensures Tokens(" " + rest) == Tokens(rest)
  {
    assert (" " + rest)[1..] == rest;
  }

  lemma TokensIndented(rest: string)
    ensures Tokens("    " + rest) == Tokens(rest)
  {
    TokensSpace("   " + rest);
    TokensSpace("  " + rest);
    TokensSpace(" " + rest);
    TokensSpace(rest);
    assert "    " + rest == " " + ("   " + rest);
    assert "   " + rest == " " + ("  " + rest);
    assert "  " + rest == " " + (" " + rest);
  }

  lemma FlagShape(flag: string, value: string, rest: string)
    ensures "    " + flag + " '" + value + "'" + rest == "    " + (flag + (" " + ("'" + value + "'" + rest)))
  {
    assert " '" == " " + "'";
  }

  lemma TokensOfFlag(flag: string, value: string, rest: string)
    requires flag in {"-H", "--data"} && '\'' !in value
    ensures Tokens("    " + flag + " '" + value + "'" + rest) == After([flag, value], Tokens(rest))
  {
    var tail := "'" + value + "'" + rest;
    TokensQuoted(value, rest);
    TokensSpace(tail);
    TokensWord(flag, " " + tail);
    TokensIndented(flag + (" " + tail));
    FlagShape(flag, value, rest);
    if Tokens(rest).Ok? { assert [flag] + ([value] + Tokens(rest).value) == [flag, value] + Tokens(rest).value; }
  }

  lemma NormaliseFlag(flag: string)
    requires flag in {"-H", "--data"}
    ensures Normalise(SEPARATOR + flag + " ") == "    " + flag + " "
  {
    var name := flag[1..] + " ";
    assert flag == "-" + flag[1..];
    NormaliseSeparator(name);
    assert SEPARATOR + flag + " " == SEPARATOR + "-" + name;
    assert "    -" + name == "    " + flag + " ";
  }

  lemma LineShape(indent: string, flag: string, value: string, rest: string)
    ensures indent + flag + " '" + value + "'" + rest == (indent + flag + " ") + "'" + value + "'" + rest
  {
    assert " '" == " " + "'";
  }

  lemma NormaliseLine(flag: string, value: string, rest: string)
    requires flag in {"-H", "--data"}
    ensures Normalise(SEPARATOR + flag + " '" + value + "'" + rest) ==
            "    " + flag + " '" + Normalise(value) + "'" + Normalise(rest)
  {
    NormaliseFlag(flag);
    NormaliseQuoted(SEPARATOR + flag + " ", value, rest);
    LineShape(SEPARATOR, flag, value, rest);
    LineShape("    ", flag, Normalise(value), Normalise(rest));
  }

  /** One continuation line: an option and its quoted value. */
  lemma TokensOfLine(flag: string, value: string, rest: string)
    requires flag in {"-H", "--data"} && '\'' !in Normalise(value)
    ensures Tokens(Normalise(SEPARATOR + flag + " '" + value + "'" + rest)) ==
            After([flag, Normalise(value)], Tokens(Normalise(rest)))
  {
    NormaliseLine(flag, value, rest);
    TokensOfFlag(flag, Normalise(value), Normalise(rest));
  }

  // ----- counting characters -----

  /** Normalising only ever drops backslashes and line ends, and adds spaces. */
  lemma CountNormalise(s: string, cs: set<char>)
    requires cs !! {' ', '\\', '\n', '\r'}
    ensures Count(Normalise(s), cs) == Count(s, cs)
  {
    CountMember(LF, cs);
    CountMember(CRLF, cs);
    CountMember(" ", cs);
    CountReplace(s, LF, " ", cs);
    CountReplace(Replace(s, LF, " "), CRLF, " ", cs);
  }

  /** Where line ends count, normalising a line continuation loses. */
  lemma NormaliseLoses(s: string, cs: set<char>)
    requires ' ' !in cs && '\n' in cs
    ensures Count(Normalise(s), cs) <= Count(s, cs)
    ensures !Unbroken(s) ==> Count(Normalise(s), cs) < Count(s, cs)
  {
    var t := Replace(s, LF, " ");
    CountMember(" ", cs);
    CountMember(LF, cs);
    CountMember(CRLF, cs);
    CountReplace(s, LF, " ", cs);
    CountReplace(t, CRLF, " ", cs);
    if Contains(s, LF) {
      CountReplaceLess(s, LF, " ", cs);
    } else if Contains(s, CRLF) {
      ReplaceNothing(s, LF, " ");
      CountReplaceLess(t, CRLF, " ", cs);
    }
  }

  lemma QuotesNormalise(s: string)
    ensures '\'' in Normalise(s) <==> '\'' in s
  {
    CountNormalise(s, {'\''});
    CountMember(s, {'\''});
    CountMember(Normalise(s), {'\''});
  }
}
