/** The parts of Rust's `str` that the modelled code uses. */
module Text {

  /** Unicode White_Space: `char::is_whitespace`. */
  predicate IsWhitespace(c: char) {
    var n := c as int;
    || 0x9 <= n <= 0xD || n == 0x20 || n == 0x85 || n == 0xA0 || n == 0x1680
    || 0x2000 <= n <= 0x200A || n == 0x2028 || n == 0x2029 || n == 0x202F || n == 0x205F || n == 0x3000
  }

  function TrimStart(s: string): string {
    if s != "" && IsWhitespace(s[0]) then TrimStart(s[1..]) else s
  }

  function TrimEnd(s: string): string {
    if s != "" && IsWhitespace(s[|s| - 1]) then TrimEnd(s[..|s| - 1]) else s
  }

  function Trim(s: string): string { TrimEnd(TrimStart(s)) }

  predicate Trimmed(s: string) {
    s == "" || (!IsWhitespace(s[0]) && !IsWhitespace(s[|s| - 1]))
  }

  lemma {:induction false} TrimStartFirst(s: string)
    ensures TrimStart(s) == "" || !IsWhitespace(TrimStart(s)[0])
  {
    if s != "" && IsWhitespace(s[0]) { TrimStartFirst(s[1..]); }
  }

  lemma {:induction false} TrimEndLast(s: string)
    ensures TrimEnd(s) <= s
    ensures TrimEnd(s) == "" || !IsWhitespace(TrimEnd(s)[|TrimEnd(s)| - 1])
  {
    if s != "" && IsWhitespace(s[|s| - 1]) {
      TrimEndLast(s[..|s| - 1]);
      assert s[..|s| - 1] <= s;
    }
  }

  lemma {:induction false} TrimStartSuffix(s: string)
    ensures EndsWith(s, TrimStart(s))
  {
    if s != "" && IsWhitespace(s[0]) {
      TrimStartSuffix(s[1..]);
      var t := TrimStart(s);
      assert s[|s| - |t|..] == s[1..][|s| - 1 - |t|..];
    }
  }

  lemma TrimMembers(s: string, c: char)
    requires c !in s
    ensures c !in Trim(s)
  {
    var a := TrimStart(s);
    TrimStartSuffix(s);
    TrimEndLast(a);
    assert forall i :: 0 <= i < |a| ==> a[i] == s[|s| - |a| + i];
    assert forall i :: 0 <= i < |Trim(s)| ==> Trim(s)[i] == a[i];
  }

  lemma TrimIsTrimmed(s: string)
    ensures Trimmed(Trim(s))
  {
    TrimStartFirst(s);
    TrimEndLast(TrimStart(s));
  }

  /** Trimming changes nothing exactly on trimmed strings. */
  lemma TrimFixed(s: string)
    ensures Trim(s) == s <==> Trimmed(s)
  {
    TrimIsTrimmed(s);
  }

  lemma TrimTwice(s: string)
    ensures Trim(Trim(s)) == Trim(s)
  {
    TrimIsTrimmed(s);
    TrimFixed(Trim(s));
  }

  // ----- what trimming and case folding mean -----

  predicate Blank(s: string) { forall i :: 0 <= i < |s| ==> IsWhitespace(s[i]) }

  /** `s` is `core` with white space on both sides. */
  ghost predicate Pads(s: string, core: string) {
    exists a, b :: Blank(a) && Blank(b) && s == a + core + b
  }

  lemma {:induction false} TrimStartSkips(a: string, t: string)
    requires Blank(a)
    ensures TrimStart(a + t) == TrimStart(t)
  {
    if a == "" {
      assert a + t == t;
    } else {
      assert (a + t)[0] == a[0] && (a + t)[1..] == a[1..] + t;
      TrimStartSkips(a[1..], t);
    }
  }

  lemma {:induction false} TrimEndSkips(t: string, b: string)
    requires Blank(b)
    ensures TrimEnd(t + b) == TrimEnd(t)
  {
    if b == "" {
      assert t + b == t;
    } else {
      var n := |b| - 1;
      assert (t + b)[|t + b| - 1] == b[n] && (t + b)[..|t + b| - 1] == t + b[..n];
      TrimEndSkips(t, b[..n]);
    }
  }

  lemma {:induction false} TrimStartShape(s: string) returns (a: string)
    ensures Blank(a) && s == a + TrimStart(s)
  {
    a := "";
    if s != "" && IsWhitespace(s[0]) {
      var rest := TrimStartShape(s[1..]);
      a := [s[0]] + rest;
      assert s == [s[0]] + s[1..];
    }
  }

  lemma {:induction false} TrimEndShape(s: string) returns (b: string)
    ensures Blank(b) && s == TrimEnd(s) + b
  {
    b := "";
    if s != "" && IsWhitespace(s[|s| - 1]) {
      var n := |s| - 1;
      var rest := TrimEndShape(s[..n]);
      b := rest + [s[n]];
      assert s == s[..n] + [s[n]];
    }
  }

  lemma TrimOfBlank(s: string)
    requires Blank(s)
    ensures Trim(s) == ""
  {
    assert s == s + "";
    TrimStartSkips(s, "");
  }

  lemma TrimOfPadded(a: string, core: string, b: string)
    requires Blank(a) && Blank(b) && Trimmed(core)
    ensures Trim(a + core + b) == core
  {
    if core == "" {
      assert a + core + b == a + b;
      TrimOfBlank(a + b);
    } else {
      assert a + core + b == a + (core + b);
      TrimStartSkips(a, core + b);
      assert (core + b)[0] == core[0];
      TrimEndSkips(core, b);
    }
  }

  lemma TrimIsInside(s: string)
    ensures Pads(s, Trim(s))
  {
    var a := TrimStartShape(s);
    var b := TrimEndShape(TrimStart(s));
    assert s == a + Trim(s) + b;
  }

  /** Trimming finds the text inside the white space, and nothing else. */
  lemma TrimExactly(s: string, core: string)
    ensures Trim(s) == core <==> Trimmed(core) && Pads(s, core)
  {
    TrimIsTrimmed(s);
    TrimIsInside(s);
    if Trimmed(core) && Pads(s, core) {
      var a, b :| Blank(a) && Blank(b) && s == a + core + b;
      TrimOfPadded(a, core, b);
    }
  }

  /** Trimming leaves nothing exactly of white space. */
  lemma BlankExactly(s: string)
    ensures Trim(s) == "" <==> Blank(s)
  {
    TrimExactly(s, "");
    if Blank(s) {
      assert Blank("") && s == s + "" + "";
      assert Pads(s, "");
    }
    if Trim(s) == "" {
      var a, b :| Blank(a) && Blank(b) && s == a + "" + b;
      assert s == a + b;
      assert Blank(a + b);
    }
  }

  predicate IsUpper(c: char) { 'A' <= c <= 'Z' }

  predicate IsLower(c: char) { 'a' <= c <= 'z' }

  /** One ASCII letter in either case, or the same character. */
  predicate SameLetter(c: char, d: char) {
    || c == d
    || (IsUpper(c) && IsLower(d) && c as int - 'A' as int == d as int - 'a' as int)
    || (IsLower(c) && IsUpper(d) && c as int - 'a' as int == d as int - 'A' as int)
  }

  predicate SameLetters(s: string, t: string) {
    |s| == |t| && forall i :: 0 <= i < |s| ==> SameLetter(s[i], t[i])
  }

  /** The lower-case form is the only one with the same letters and no capital. */
  lemma LowerExactly(s: string, t: string)
    ensures Lower(s) == t <==> SameLetters(s, t) && forall i :: 0 <= i < |t| ==> !IsUpper(t[i])
  {
    if SameLetters(s, t) && forall i :: 0 <= i < |t| ==> !IsUpper(t[i]) {
      forall i | 0 <= i < |s| ensures Lower(s)[i] == t[i] { assert SameLetter(s[i], t[i]); }
    }
  }

  /** Two texts have the same letters exactly when case folding makes them equal. */
  lemma SameLower(s: string, t: string)
    ensures Lower(s) == Lower(t) <==> SameLetters(s, t)
  {
    if SameLetters(s, t) {
      forall i | 0 <= i < |s| ensures LowerChar(s[i]) == LowerChar(t[i]) { assert SameLetter(s[i], t[i]); }
    }
    if Lower(s) == Lower(t) {
      forall i | 0 <= i < |s| ensures SameLetter(s[i], t[i]) { assert Lower(s)[i] == Lower(t)[i]; }
    }
  }

  lemma UpperExactly(s: string, t: string)
    ensures Upper(s) == t <==> SameLetters(s, t) && forall i :: 0 <= i < |t| ==> !IsLower(t[i])
  {
    if SameLetters(s, t) && forall i :: 0 <= i < |t| ==> !IsLower(t[i]) {
      forall i | 0 <= i < |s| ensures Upper(s)[i] == t[i] { assert SameLetter(s[i], t[i]); }
    }
  }

  function LowerChar(c: char): char {
    if 'A' <= c <= 'Z' then c + ' ' else c
  }

  function UpperChar(c: char): char {
    if 'a' <= c <= 'z' then c - ' ' else c
  }

  /** `to_ascii_lowercase` */
  function Lower(s: string): (r: string)
    ensures |r| == |s|
  {
    seq(|s|, i requires 0 <= i < |s| => LowerChar(s[i]))
  }

  /** `to_ascii_uppercase` */
  function Upper(s: string): (r: string)
    ensures |r| == |s|
  {
    seq(|s|, i requires 0 <= i < |s| => UpperChar(s[i]))
  }

  lemma LowerTwice(s: string)
    ensures Lower(Lower(s)) == Lower(s)
  {}

  lemma UpperTwice(s: string)
    ensures Upper(Upper(s)) == Upper(s)
  {}

  /** `split(c)`: the pieces between the occurrences of `c`. */
  function Split(s: string, c: char): (r: seq<string>)
    ensures r != []
  {
    if s == "" then [""]
    else
      var rest := Split(s[1..], c);
      if s[0] == c then [""] + rest else [[s[0]] + rest[0]] + rest[1..]
  }

  function Join(parts: seq<string>, c: char): string {
    if parts == [] then ""
    else if |parts| == 1 then parts[0]
    else parts[0] + [c] + Join(parts[1..], c)
  }

  predicate StartsWith(s: string, prefix: string) { prefix <= s }

  predicate EndsWith(s: string, suffix: string) {
    |suffix| <= |s| && s[|s| - |suffix|..] == suffix
  }

  /** `pattern` occurs in `s` at `at`. */
  predicate OccursAt(s: string, pattern: string, at: nat) {
    at + |pattern| <= |s| && s[at..at + |pattern|] == pattern
  }

  predicate Contains(s: string, pattern: string) {
    exists at :: 0 <= at <= |s| && OccursAt(s, pattern, at)
  }

  /** `replace`: every occurrence of a non-empty pattern, leftmost first. */
  function Replace(s: string, pattern: string, fill: string): string
    requires pattern != ""
  {
    if |s| < |pattern| then s
    else if s[..|pattern|] == pattern then fill + Replace(s[|pattern|..], pattern, fill)
    else [s[0]] + Replace(s[1..], pattern, fill)
  }

  /** Length in UTF-8 bytes: `str::len`. */
  function Utf8Len(s: string): nat {
    if s == "" then 0 else CharLen(s[0]) + Utf8Len(s[1..])
  }

  function CharLen(c: char): nat {
    var n := c as int;
    if n < 0x80 then 1 else if n < 0x800 then 2 else if n < 0x10000 then 3 else 4
  }

  // ----- splitting and joining are inverse -----

  lemma {:induction false} JoinSplit(s: string, c: char)
    ensures Join(Split(s, c), c) == s
  {
    if s != "" {
      JoinSplit(s[1..], c);
      var rest := Split(s[1..], c);
      if s[0] == c {
        assert ([""] + rest)[1..] == rest;
      } else if |rest| > 1 {
        var parts := [[s[0]] + rest[0]] + rest[1..];
        assert parts[1..] == rest[1..];
        assert [s[0]] + (rest[0] + [c] + Join(rest[1..], c)) == ([s[0]] + rest[0]) + [c] + Join(rest[1..], c);
      }
    }
  }

  lemma {:induction false} SplitPlain(s: string, c: char)
    requires c !in s
    ensures Split(s, c) == [s]
  {
    if s != "" {
      SplitPlain(s[1..], c);
      assert s == [s[0]] + s[1..];
    }
  }

  lemma {:induction false} SplitFirst(a: string, rest: string, c: char)
    requires c !in a
    ensures Split(a + [c] + rest, c) == [a] + Split(rest, c)
  {
    var s := a + [c] + rest;
    if a == "" {
      assert s[1..] == rest;
    } else {
      SplitFirst(a[1..], rest, c);
      assert s[1..] == a[1..] + [c] + rest;
      assert a == [a[0]] + a[1..];
    }
  }

  lemma {:induction false} SplitJoin(parts: seq<string>, c: char)
    requires parts != [] && forall p :: p in parts ==> c !in p
    ensures Split(Join(parts, c), c) == parts
  {
    if |parts| == 1 {
      SplitPlain(parts[0], c);
    } else {
      SplitFirst(parts[0], Join(parts[1..], c), c);
      SplitJoin(parts[1..], c);
    }
  }

  lemma {:induction false} SplitPieces(s: string, c: char)
    ensures forall p :: p in Split(s, c) ==> c !in p
    ensures forall p, x :: p in Split(s, c) && x in p ==> x in s
    ensures |Split(s, c)| > 1 <==> c in s
  {
    if s != "" {
      SplitPieces(s[1..], c);
      assert s == [s[0]] + s[1..];
    }
  }

  /** The pieces are the only texts free of `c` that, joined by `c`, give the text. */
  lemma SplitExactly(s: string, c: char, parts: seq<string>)
    ensures Split(s, c) == parts <==> parts != [] && Join(parts, c) == s && forall p :: p in parts ==> c !in p
  {
    JoinSplit(s, c);
    SplitPieces(s, c);
    if parts != [] && Join(parts, c) == s && forall p :: p in parts ==> c !in p { SplitJoin(parts, c); }
  }
}
