/** The `normalize_*` functions of src/control_plane/workspace.rs. */
module NormalForms {
  import opened Options
  import opened Text
  import opened Selections

  const MAX_HOST_FOCUS := 32
  const MAX_HOST_LEN := 255
  const MAX_ID_LEN := 256

  const ALLOWED_METHODS := ["GET", "POST", "PUT", "PATCH", "DELETE", "CONNECT", "OPTIONS", "HEAD"]
  const ALLOWED_STATUS_BUCKETS := ["1", "2", "3", "4", "5", "-"]

  /** Normalises one entry: an error, nothing to keep, or the entry to keep. */
  type Rule = string -> Result<Option<string>>

  function MethodRule(s: string): Result<Option<string>> {
    var m := Upper(Trim(s));
    if m in ALLOWED_METHODS then Ok(Some(m)) else Err("unsupported sessions_view.methods entry")
  }

  function BucketRule(s: string): Result<Option<string>> {
    var b := Trim(s);
    if b in ALLOWED_STATUS_BUCKETS then Ok(Some(b)) else Err("unsupported sessions_view.status_buckets entry")
  }

  /** `trim_end_matches('.')` */
  function TrimDots(s: string): string {
    if s != "" && s[|s| - 1] == '.' then TrimDots(s[..|s| - 1]) else s
  }

  predicate HasBlank(s: string) { exists i :: 0 <= i < |s| && IsWhitespace(s[i]) }

  /** `normalize_host` */
  function HostRule(s: string): Result<Option<string>> {
    var h := Lower(TrimDots(Trim(s)));
    if h == "" then Ok(None)
    else if Utf8Len(h) > MAX_HOST_LEN then Err("host values may be at most 255 bytes")
    else if '/' in h || '\\' in h || HasBlank(h) then Err("host values must be hostnames")
    else Ok(Some(h))
  }

  /** `normalize_optional_id` on a given id */
  function IdRule(s: string): Result<Option<string>> {
    var id := Trim(s);
    if id == "" then Ok(None)
    else if Utf8Len(id) > MAX_ID_LEN then Err("id too long")
    else Ok(Some(id))
  }

  function NormalizeOptional(rule: Rule, o: Option<string>): Result<Option<string>> {
    if o.Some? then rule(o.value) else Ok(None)
  }

  /** Entries in order of first appearance, each normalised and kept once. */
  function NormalizeAll(rule: Rule, entries: seq<string>): Result<seq<string>> {
    if entries == [] then Ok([])
    else
      var front := NormalizeAll(rule, entries[..|entries| - 1]);
      if front.Err? then front
      else
        var last := rule(entries[|entries| - 1]);
        if last.Err? then Err(last.error)
        else if last.value.None? || last.value.value in front.value then front
        else Ok(front.value + [last.value.value])
  }

  /** The loop shared by the three list normalisers: a seen set and a result list. */
  method NormalizeEntries(rule: Rule, entries: seq<string>) returns (r: Result<seq<string>>)
    ensures r == NormalizeAll(rule, entries)
  {
    var seen: set<string> := {};
    var normalized: seq<string> := [];
    for i := 0 to |entries|
      invariant NormalizeAll(rule, entries[..i]) == Ok(normalized)
      invariant forall s :: s in seen <==> s in normalized
    {
      assert entries[..i + 1][..i] == entries[..i];
      var entry := rule(entries[i]);
      if entry.Err? {
        FirstErrorDecides(rule, entries, i + 1);
        return Err(entry.error);
      }
      if entry.value.Some? && entry.value.value !in seen {
        seen := seen + {entry.value.value};
        normalized := normalized + [entry.value.value];
      }
    }
    assert entries[..|entries|] == entries;
    r := Ok(normalized);
  }

  lemma {:induction false} FirstErrorDecides(rule: Rule, entries: seq<string>, n: nat)
    requires n <= |entries| && NormalizeAll(rule, entries[..n]).Err?
    ensures NormalizeAll(rule, entries) == NormalizeAll(rule, entries[..n])
  {
    if n == |entries| {
      assert entries[..n] == entries;
    } else {
      assert entries[..|entries| - 1][..n] == entries[..n];
      FirstErrorDecides(rule, entries[..|entries| - 1], n);
    }
  }

  function NormalizeMethods(ms: seq<string>): Result<seq<string>> { NormalizeAll(MethodRule, ms) }

  function NormalizeBuckets(bs: seq<string>): Result<seq<string>> { NormalizeAll(BucketRule, bs) }

  function NormalizeHosts(hs: seq<string>): Result<seq<string>> {
    if |hs| > MAX_HOST_FOCUS then Err("too many hosts") else NormalizeAll(HostRule, hs)
  }

  // ----- idempotence -----

  /** What the rule keeps, it keeps as it is. */
  ghost predicate Stable(rule: Rule) {
    forall s :: rule(s).Ok? && rule(s).value.Some? ==> rule(rule(s).value.value) == rule(s)
  }

  ghost predicate Distinct(s: seq<string>) {
    forall i, j :: 0 <= i < j < |s| ==> s[i] != s[j]
  }

  ghost predicate Settled(rule: Rule, s: seq<string>) {
    Distinct(s) && forall i :: 0 <= i < |s| ==> rule(s[i]) == Ok(Some(s[i]))
  }

  lemma {:induction false} NormalizedIsSettled(rule: Rule, entries: seq<string>)
    requires Stable(rule) && NormalizeAll(rule, entries).Ok?
    ensures Settled(rule, NormalizeAll(rule, entries).value)
    ensures |NormalizeAll(rule, entries).value| <= |entries|
  {
    if entries != [] {
      NormalizedIsSettled(rule, entries[..|entries| - 1]);
    }
  }

  lemma {:induction false} SettledIsFixed(rule: Rule, s: seq<string>)
    requires Settled(rule, s)
    ensures NormalizeAll(rule, s) == Ok(s)
  {
    if s != [] {
      var n := |s| - 1;
      SettledIsFixed(rule, s[..n]);
      assert s == s[..n] + [s[n]];
      assert s[n] !in s[..n];
    }
  }

  /** The fixed points of a list normaliser are exactly the lists of distinct entries
      that its rule keeps. */
  lemma FixedExactlyWhenSettled(rule: Rule, s: seq<string>)
    requires Stable(rule)
    ensures NormalizeAll(rule, s) == Ok(s) <==> Settled(rule, s)
  {
    if NormalizeAll(rule, s) == Ok(s) { NormalizedIsSettled(rule, s); }
    if Settled(rule, s) { SettledIsFixed(rule, s); }
  }

  lemma NormalizeAgain(rule: Rule, entries: seq<string>)
    requires Stable(rule) && NormalizeAll(rule, entries).Ok?
    ensures var once := NormalizeAll(rule, entries).value;
            NormalizeAll(rule, once) == Ok(once) && |once| <= |entries|
  {
    NormalizedIsSettled(rule, entries);
    SettledIsFixed(rule, NormalizeAll(rule, entries).value);
  }

  lemma MethodRuleStable()
    ensures Stable(MethodRule)
  {
    forall s | MethodRule(s).Ok? ensures MethodRule(MethodRule(s).value.value) == MethodRule(s) {
      var m := Upper(Trim(s));
      UpperTwice(Trim(s));
      forall a | a in ALLOWED_METHODS ensures Trimmed(a) {}
      TrimFixed(m);
    }
  }

  lemma BucketRuleStable()
    ensures Stable(BucketRule)
  {
    forall s | BucketRule(s).Ok? ensures BucketRule(BucketRule(s).value.value) == BucketRule(s) {
      TrimTwice(s);
    }
  }

  lemma IdRuleStable()
    ensures Stable(IdRule)
  {
    forall s | IdRule(s).Ok? && IdRule(s).value.Some? ensures IdRule(IdRule(s).value.value) == IdRule(s) {
      TrimTwice(s);
    }
  }

  lemma {:induction false} TrimDotsLast(s: string)
    ensures TrimDots(s) == "" || TrimDots(s)[|TrimDots(s)| - 1] != '.'
    ensures TrimDots(TrimDots(s)) == TrimDots(s)
  {
    if s != "" && s[|s| - 1] == '.' { TrimDotsLast(s[..|s| - 1]); }
  }

  /** A kept host has no blank anywhere and no trailing dot, and is in lower case. */
  lemma HostRuleStable()
    ensures Stable(HostRule)
  {
    forall s | HostRule(s).Ok? && HostRule(s).value.Some? ensures HostRule(HostRule(s).value.value) == HostRule(s) {
      var d := TrimDots(Trim(s));
      var h := Lower(d);
      TrimDotsLast(Trim(s));
      assert Trimmed(h) by {
        assert !HasBlank(h);
        assert !IsWhitespace(h[0]) && !IsWhitespace(h[|h| - 1]);
      }
      TrimFixed(h);
      assert d[|d| - 1] != '.' && h[|h| - 1] == LowerChar(d[|d| - 1]);
      assert TrimDots(h) == h;
      LowerTwice(d);
    }
  }

  // ----- what the rules keep -----

  /** A method is kept in capitals, and only the eight are. */
  lemma MethodRuleExactly(s: string, m: string)
    ensures MethodRule(s) == Ok(Some(m)) <==>
            m in ALLOWED_METHODS && exists core :: Pads(s, core) && SameLetters(core, m)
    ensures MethodRule(s) != Ok(None)
  {
    if MethodRule(s) == Ok(Some(m)) {
      TrimExactly(s, Trim(s));
      UpperExactly(Trim(s), m);
    }
    if m in ALLOWED_METHODS && exists core :: Pads(s, core) && SameLetters(core, m) {
      var core :| Pads(s, core) && SameLetters(core, m);
      AllowedLetters(m);
      assert forall i :: 0 <= i < |core| ==> SameLetter(core[i], m[i]);
      TrimExactly(s, core);
      UpperExactly(core, m);
    }
  }

  lemma AllowedLetters(m: string)
    requires m in ALLOWED_METHODS
    ensures m != "" && forall i :: 0 <= i < |m| ==> IsUpper(m[i])
  {}

  /** A status bucket is kept as it is. */
  lemma BucketRuleExactly(s: string, b: string)
    ensures BucketRule(s) == Ok(Some(b)) <==> b in ALLOWED_STATUS_BUCKETS && Pads(s, b)
    ensures BucketRule(s) != Ok(None)
  {
    TrimExactly(s, b);
    if b in ALLOWED_STATUS_BUCKETS { BucketIsTrimmed(b); }
  }

  lemma BucketIsTrimmed(b: string)
    requires b in ALLOWED_STATUS_BUCKETS
    ensures Trimmed(b)
  {}

  /** An id is kept without the white space around it; white space alone is no id. */
  lemma IdRuleExactly(s: string, id: string)
    ensures IdRule(s) == Ok(Some(id)) <==> id != "" && Trimmed(id) && Pads(s, id) && Utf8Len(id) <= MAX_ID_LEN
    ensures IdRule(s) == Ok(None) <==> Blank(s)
  {
    TrimExactly(s, id);
    BlankExactly(s);
  }

  function Dots(n: nat): string { seq(n, _ => '.') }

  predicate HostName(h: string) {
    && h != "" && Utf8Len(h) <= MAX_HOST_LEN && h[|h| - 1] != '.'
    && forall i :: 0 <= i < |h| ==> !IsUpper(h[i]) && !IsWhitespace(h[i]) && h[i] !in {'/', '\\'}
  }

  lemma {:induction false} TrimDotsSkips(core: string, n: nat)
    ensures TrimDots(core + Dots(n)) == TrimDots(core)
  {
    var s := core + Dots(n);
    if n == 0 {
      assert s == core;
    } else {
      assert s[|s| - 1] == '.' && s[..|s| - 1] == core + Dots(n - 1);
      TrimDotsSkips(core, n - 1);
    }
  }

  lemma {:induction false} TrimDotsShape(s: string) returns (n: nat)
    ensures s == TrimDots(s) + Dots(n)
  {
    n := 0;
    if s != "" && s[|s| - 1] == '.' {
      var m := TrimDotsShape(s[..|s| - 1]);
      n := m + 1;
      assert s == s[..|s| - 1] + "." && Dots(n) == Dots(m) + ".";
    }
  }

  lemma HostKept(s: string, h: string)
    requires HostRule(s) == Ok(Some(h))
    ensures HostName(h) && exists core, n: nat :: Pads(s, core + Dots(n)) && SameLetters(core, h)
  {
    var core := TrimDots(Trim(s));
    var n := TrimDotsShape(Trim(s));
    TrimIsInside(s);
    TrimDotsLast(Trim(s));
    LowerExactly(core, h);
    assert SameLetter(core[|core| - 1], h[|h| - 1]);
  }

  lemma HostMade(s: string, h: string, core: string, n: nat)
    requires HostName(h) && Pads(s, core + Dots(n)) && SameLetters(core, h)
    ensures HostRule(s) == Ok(Some(h))
  {
    assert forall i :: 0 <= i < |core| ==> SameLetter(core[i], h[i]);
    TrimExactly(s, core + Dots(n));
    TrimDotsSkips(core, n);
    assert TrimDots(core) == core;
    LowerExactly(core, h);
  }

  /** A host is kept in lower case, without the white space around it and the dots behind
      it; white space and dots alone are no host. */
  lemma HostRuleExactly(s: string, h: string)
    ensures HostRule(s) == Ok(Some(h)) <==>
            HostName(h) && exists core, n: nat :: Pads(s, core + Dots(n)) && SameLetters(core, h)
    ensures HostRule(s) == Ok(None) <==> exists n: nat :: Pads(s, Dots(n))
  {
    if HostRule(s) == Ok(Some(h)) { HostKept(s, h); }
    if HostName(h) && exists core, n: nat :: Pads(s, core + Dots(n)) && SameLetters(core, h) {
      var core, n: nat :| Pads(s, core + Dots(n)) && SameLetters(core, h);
      HostMade(s, h, core, n);
    }
    NoHost(s);
  }

  lemma NoHost(s: string)
    ensures HostRule(s) == Ok(None) <==> exists n: nat :: Pads(s, Dots(n))
  {
    if HostRule(s) == Ok(None) {
      var n := TrimDotsShape(Trim(s));
      assert Trim(s) == Dots(n);
      TrimIsInside(s);
    }
    if exists n: nat :: Pads(s, Dots(n)) {
      var n: nat :| Pads(s, Dots(n));
      TrimExactly(s, Dots(n));
      TrimDotsSkips("", n);
      assert "" + Dots(n) == Dots(n);
    }
  }

  // ----- what a list becomes -----

  /** The entry at `i`, as the rule keeps it, if no earlier one is kept as the same. */
  ghost function FirstKept(rule: Rule, entries: seq<string>, i: int): Option<string> {
    if 0 <= i < |entries| && rule(entries[i]).Ok? && rule(entries[i]).value.Some?
       && forall j :: 0 <= j < i ==> rule(entries[j]) != rule(entries[i])
    then rule(entries[i]).value else None
  }

  ghost function FirstKeptOf(rule: Rule, entries: seq<string>): int -> Option<string> {
    i => FirstKept(rule, entries, i)
  }

  /** Every entry passes, and `out` is what is kept of them, each once, in order of first
      appearance. */
  ghost predicate Appearances(rule: Rule, entries: seq<string>, out: seq<string>) {
    (forall i :: 0 <= i < |entries| ==> rule(entries[i]).Ok?)
    && Selects(FirstKeptOf(rule, entries), Indices(|entries|), out)
  }

  lemma {:induction false} NormalizedMembers(rule: Rule, entries: seq<string>, x: string)
    requires NormalizeAll(rule, entries).Ok?
    ensures x in NormalizeAll(rule, entries).value <==>
            exists i :: 0 <= i < |entries| && rule(entries[i]) == Ok(Some(x))
  {
    if entries != [] {
      var n := |entries| - 1;
      NormalizedMembers(rule, entries[..n], x);
      assert entries == entries[..n] + [entries[n]];
    }
  }

  lemma SelectsFromFront(rule: Rule, entries: seq<string>, n: int, out: seq<string>)
    requires 0 <= n < |entries| && Selects(FirstKeptOf(rule, entries[..n]), Indices(n), out)
    ensures Selects(FirstKeptOf(rule, entries), Indices(n + 1), out + First(FirstKeptOf(rule, entries), n))
  {
    var f, g := FirstKeptOf(rule, entries[..n]), FirstKeptOf(rule, entries);
    forall i | 0 <= i < n ensures f(i) == g(i) { SameFirst(rule, entries, n, i); }
    SelectsNextIndex(f, g, n, out);
  }

  lemma {:induction false} AllPass(rule: Rule, entries: seq<string>)
    requires NormalizeAll(rule, entries).Ok?
    ensures forall i :: 0 <= i < |entries| ==> rule(entries[i]).Ok?
  {
    if entries != [] {
      var n := |entries| - 1;
      AllPass(rule, entries[..n]);
      assert entries == entries[..n] + [entries[n]];
    }
  }

  lemma {:induction false} NormalizedAppears(rule: Rule, entries: seq<string>)
    requires NormalizeAll(rule, entries).Ok?
    ensures Selects(FirstKeptOf(rule, entries), Indices(|entries|), NormalizeAll(rule, entries).value)
  {
    if entries == [] {
      SelectsNone(FirstKeptOf(rule, entries));
    } else {
      var n := |entries| - 1;
      NormalizedAppears(rule, entries[..n]);
      SelectsFromFront(rule, entries, n, NormalizeAll(rule, entries[..n]).value);
      LastAppears(rule, entries);
    }
  }

  lemma SameFirst(rule: Rule, entries: seq<string>, n: nat, i: nat)
    requires i < n <= |entries|
    ensures FirstKept(rule, entries[..n], i) == FirstKept(rule, entries, i)
  {
    assert forall j :: 0 <= j < n ==> entries[..n][j] == entries[j];
  }

  lemma LastAppears(rule: Rule, entries: seq<string>)
    requires entries != [] && NormalizeAll(rule, entries).Ok?
    ensures var n := |entries| - 1;
            NormalizeAll(rule, entries).value ==
            NormalizeAll(rule, entries[..n]).value + First(FirstKeptOf(rule, entries), n)
  {
    var n := |entries| - 1;
    var out := NormalizeAll(rule, entries[..n]).value;
    var last := rule(entries[n]).value;
    assert forall j :: 0 <= j < n ==> entries[..n][j] == entries[j];
    if last.Some? { NormalizedMembers(rule, entries[..n], last.value); }
    assert out + [] == out;
  }

  lemma {:induction false} PassingNormalizes(rule: Rule, entries: seq<string>)
    requires forall i :: 0 <= i < |entries| ==> rule(entries[i]).Ok?
    ensures NormalizeAll(rule, entries).Ok?
  {
    if entries != [] { PassingNormalizes(rule, entries[..|entries| - 1]); }
  }

  /** A list is normalised to what its entries are kept as, each once, in order of first
      appearance, and refused exactly when some entry is. */
  lemma NormalizedExactly(rule: Rule, entries: seq<string>, out: seq<string>)
    ensures NormalizeAll(rule, entries) == Ok(out) <==> Appearances(rule, entries, out)
  {
    if NormalizeAll(rule, entries).Ok? {
      NormalizedAppears(rule, entries);
      AllPass(rule, entries);
    }
    if Appearances(rule, entries, out) {
      PassingNormalizes(rule, entries);
      NormalizedAppears(rule, entries);
      SelectsOne(FirstKeptOf(rule, entries), Indices(|entries|), out, NormalizeAll(rule, entries).value);
    }
  }
}
