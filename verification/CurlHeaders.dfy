/** How header tokens of an exported request become the parsed header map. */
module CurlHeaders {
  import opened Text
  import opened Curl
  import opened Counting
  import opened CurlTokens

  type Header = (string, string)

  /** The parsed map holds every entry and nothing else, and no entry was lost to
      another. */
  ghost predicate Matches(m: map<string, string>, hs: seq<Header>) {
    |m| == |hs| && HoldsAll(m, hs) && forall k :: k in m ==> Names(hs, k)
  }

  function HeaderValue(h: Header): string { h.0 + ": " + h.1 }

  /** The map after the header tokens of `hs`, in order. */
  function AddAll(m: map<string, string>, hs: seq<Header>): map<string, string> {
    if hs == [] then m
    else AddHeader(AddAll(m, hs[..|hs| - 1]), Normalise(HeaderValue(hs[|hs| - 1])))
  }

  /** A header that one exported line can carry. */
  ghost predicate Carried(h: Header) {
    && ':' !in h.0 && Trimmed(h.0) && Trimmed(h.1) && Unbroken(h.0) && Unbroken(h.1)
  }

  ghost predicate DistinctNames(hs: seq<Header>) {
    forall i, j :: 0 <= i < j < |hs| ==> hs[i].0 != hs[j].0
  }

  // ----- one header -----

  function ParsedName(h: Header): string {
    var t := Normalise(HeaderValue(h));
    Trim(t[..ColonAt(t)])
  }

  function ParsedValue(h: Header): string {
    var t := Normalise(HeaderValue(h));
    if ColonAt(t) < |t| then Trim(t[ColonAt(t) + 1..]) else ""
  }

  /** The name and the value are normalised separately. */
  lemma HeaderValueParts(h: Header)
    ensures Normalise(HeaderValue(h)) == Normalise(h.0) + ":" + (" " + Normalise(h.1))
  {
    assert HeaderValue(h) == h.0 + ":" + (" " + h.1);
    NormaliseAround(h.0, ':', " " + h.1);
    NormaliseAround("", ' ', h.1);
    NormaliseNoBackslash("");
    assert " " + h.1 == "" + " " + h.1 && "" + " " + Normalise(h.1) == " " + Normalise(h.1);
  }

  lemma HasColon(h: Header)
    ensures var t := Normalise(HeaderValue(h)); ColonAt(t) < |t|
  {
    HeaderValueParts(h);
    var t := Normalise(HeaderValue(h));
    assert t[|Normalise(h.0)|] == ':';
  }

  lemma {:induction false} ColonAtFirst(a: string, rest: string)
    requires ':' !in a
    ensures ColonAt(a + ":" + rest) == |a|
  {
    var s := a + ":" + rest;
    assert forall i :: 0 <= i < |a| ==> s[i] == a[i];
    assert s[|a|] == ':';
  }

  lemma TrimSpace(s: string)
    ensures Trim(" " + s) == Trim(s)
  {
    assert (" " + s)[1..] == s;
  }

  lemma ColonsNormalise(s: string)
    ensures ':' in Normalise(s) <==> ':' in s
  {
    CountNormalise(s, {':'});
    CountMember(s, {':'});
    CountMember(Normalise(s), {':'});
  }

  /** A colon-free name is read back up to trimming and normalising, with its value. */
  lemma ParsedParts(h: Header)
    requires ':' !in h.0
    ensures ParsedName(h) == Trim(Normalise(h.0)) && ParsedValue(h) == Trim(Normalise(h.1))
  {
    HeaderValueParts(h);
    ColonsNormalise(h.0);
    ColonAtFirst(Normalise(h.0), " " + Normalise(h.1));
    var t := Normalise(HeaderValue(h));
    var n := |Normalise(h.0)|;
    assert t[..n] == Normalise(h.0) && t[n + 1..] == " " + Normalise(h.1);
    TrimSpace(Normalise(h.1));
  }

  /** A stretch of an unbroken string. */
  lemma TrimUnbroken(s: string)
    requires Unbroken(s)
    ensures Unbroken(Trim(s))
  {
    var a := TrimStart(s);
    TrimStartSuffix(s);
    assert s == s[..|s| - |a|] + a;
    UnbrokenPart(s[..|s| - |a|], a);
    TrimEndLast(a);
    var b := TrimEnd(a);
    assert a == b + a[|b|..];
    UnbrokenPart(b, a[|b|..]);
  }

  /** Whatever the header, its parsed name could itself be carried. */
  lemma ParsedNameShape(h: Header)
    ensures ':' !in ParsedName(h) && Trimmed(ParsedName(h)) && Unbroken(ParsedName(h))
    ensures Trimmed(ParsedValue(h)) && Unbroken(ParsedValue(h))
  {
    var t := Normalise(HeaderValue(h));
    var n := ColonAt(t);
    HasColon(h);
    NormalisedIsUnbroken(HeaderValue(h));
    PartIsUnbroken(t, n);
    PartIsUnbroken(t, n + 1);
    TrimMembers(t[..n], ':');
  }

  lemma PartIsUnbroken(t: string, n: nat)
    requires Unbroken(t) && n <= |t|
    ensures Unbroken(Trim(t[..n])) && Trimmed(Trim(t[..n]))
    ensures Unbroken(Trim(t[n..])) && Trimmed(Trim(t[n..]))
  {
    assert t == t[..n] + t[n..];
    UnbrokenPart(t[..n], t[n..]);
    TrimUnbroken(t[..n]);
    TrimUnbroken(t[n..]);
    TrimIsTrimmed(t[..n]);
    TrimIsTrimmed(t[n..]);
  }

  /** One header is read back exactly when it can be carried. */
  lemma HeaderReadBack(h: Header)
    ensures ParsedName(h) == h.0 && ParsedValue(h) == h.1 <==> Carried(h)
  {
    ParsedNameShape(h);
    if Carried(h) {
      ParsedParts(h);
      NormaliseFixed(h.0);
      NormaliseFixed(h.1);
      TrimFixed(h.0);
      TrimFixed(h.1);
    }
  }

  // ----- a map built by insertion -----

  function InsertAll(ps: seq<(string, string)>): map<string, string> {
    if ps == [] then map[]
    else InsertAll(ps[..|ps| - 1])[ps[|ps| - 1].0 := ps[|ps| - 1].1]
  }

  ghost predicate Names(ps: seq<(string, string)>, k: string) {
    exists i :: 0 <= i < |ps| && ps[i].0 == k
  }

  lemma GrowsByNewKey(m: map<string, string>, k: string, v: string)
    ensures |m[k := v]| == |m| + if k in m then 0 else 1
  {
    assert m[k := v].Keys == m.Keys + {k};
    assert |m[k := v]| == |m[k := v].Keys| && |m| == |m.Keys|;
  }

  lemma NamesAppend(ps: seq<(string, string)>, p: (string, string), k: string)
    ensures Names(ps + [p], k) <==> Names(ps, k) || p.0 == k
  {
    if Names(ps, k) {
      var i :| 0 <= i < |ps| && ps[i].0 == k;
      assert (ps + [p])[i].0 == k;
    }
    if p.0 == k { assert (ps + [p])[|ps|].0 == k; }
  }

  lemma {:induction false} InsertAllKeys(ps: seq<(string, string)>, k: string)
    ensures k in InsertAll(ps) <==> Names(ps, k)
  {
    if ps != [] {
      var n := |ps| - 1;
      assert ps == ps[..n] + [ps[n]];
      InsertAllKeys(ps[..n], k);
      NamesAppend(ps[..n], ps[n], k);
    }
  }

  lemma DistinctAppend(ps: seq<(string, string)>, p: (string, string))
    ensures DistinctNames(ps + [p]) <==> DistinctNames(ps) && !Names(ps, p.0)
  {
    var all := ps + [p];
    assert forall i :: 0 <= i < |ps| ==> all[i] == ps[i];
    if DistinctNames(all) {
      forall i | 0 <= i < |ps| ensures ps[i].0 != p.0 { assert all[i].0 != all[|ps|].0; }
    }
  }

  ghost predicate HoldsAll(m: map<string, string>, ps: seq<(string, string)>) {
    forall i :: 0 <= i < |ps| ==> ps[i].0 in m && m[ps[i].0] == ps[i].1
  }

  /** The map is as large as the list exactly when no name is repeated, and then it
      holds every pair. */
  lemma {:induction false} InsertAllSize(ps: seq<(string, string)>)
    ensures |InsertAll(ps)| <= |ps|
    ensures |InsertAll(ps)| == |ps| <==> DistinctNames(ps)
    ensures DistinctNames(ps) ==> HoldsAll(InsertAll(ps), ps)
  {
    if ps != [] {
      var n := |ps| - 1;
      var front, last := ps[..n], ps[n];
      assert ps == front + [last];
      InsertAllSize(front);
      GrowsByNewKey(InsertAll(front), last.0, last.1);
      InsertAllKeys(front, last.0);
      DistinctAppend(front, last);
      if DistinctNames(ps) {
        forall i | 0 <= i < |ps| ensures ps[i].0 in InsertAll(ps) && InsertAll(ps)[ps[i].0] == ps[i].1 {
          if i < n { assert front[i] == ps[i] && Names(front, ps[i].0); }
        }
      }
    }
  }

  // ----- all headers -----

  ghost function ParsedPair(h: Header): Header { (ParsedName(h), ParsedValue(h)) }

  ghost function ParsedPairs(hs: seq<Header>): seq<Header> {
    seq(|hs|, i requires 0 <= i < |hs| => ParsedPair(hs[i]))
  }

  lemma AddOne(m: map<string, string>, h: Header)
    ensures AddHeader(m, Normalise(HeaderValue(h))) == m[ParsedName(h) := ParsedValue(h)]
  {
    HasColon(h);
  }

  lemma {:induction false} AddAllInserts(hs: seq<Header>)
    ensures AddAll(map[], hs) == InsertAll(ParsedPairs(hs))
  {
    if hs != [] {
      var n := |hs| - 1;
      AddAllInserts(hs[..n]);
      AddOne(AddAll(map[], hs[..n]), hs[n]);
      assert ParsedPairs(hs)[..n] == ParsedPairs(hs[..n]);
    }
  }

  /** The name of a header whose name turns up among the parsed ones was read back. */
  lemma NameFound(hs: seq<Header>, i: nat)
    requires i < |hs| && Names(ParsedPairs(hs), hs[i].0)
    ensures ParsedName(hs[i]) == hs[i].0
  {
    var k := hs[i].0;
    var j :| 0 <= j < |hs| && ParsedPairs(hs)[j].0 == k;
    ParsedNameShape(hs[j]);
    ParsedParts(hs[i]);
    NormaliseFixed(k);
    TrimFixed(k);
  }

  /** The parsed map matches the headers exactly when each can be carried and no
      name is repeated. */
  lemma HeadersReadBack(hs: seq<Header>)
    ensures Matches(AddAll(map[], hs), hs) <==>
            DistinctNames(hs) && forall i :: 0 <= i < |hs| ==> Carried(hs[i])
  {
    AddAllInserts(hs);
    if Matches(InsertAll(ParsedPairs(hs)), hs) { MatchIsCarried(hs); }
    if DistinctNames(hs) && forall i :: 0 <= i < |hs| ==> Carried(hs[i]) { CarriedMatches(hs); }
  }

  lemma MatchIsCarried(hs: seq<Header>)
    requires Matches(InsertAll(ParsedPairs(hs)), hs)
    ensures DistinctNames(hs) && forall i :: 0 <= i < |hs| ==> Carried(hs[i])
  {
    var ps := ParsedPairs(hs);
    InsertAllSize(ps);
    forall i | 0 <= i < |hs| ensures ParsedPair(hs[i]) == hs[i] {
      InsertAllKeys(ps, hs[i].0);
      NameFound(hs, i);
      assert ps[i].0 == hs[i].0;
    }
    AllCarried(hs);
  }

  lemma CarriedMatches(hs: seq<Header>)
    requires DistinctNames(hs) && forall i :: 0 <= i < |hs| ==> Carried(hs[i])
    ensures Matches(InsertAll(ParsedPairs(hs)), hs)
  {
    var ps := ParsedPairs(hs);
    forall i | 0 <= i < |hs| ensures ps[i] == hs[i] { HeaderReadBack(hs[i]); }
    assert ps == hs;
    InsertAllSize(hs);
    forall k | k in InsertAll(hs) ensures Names(hs, k) { InsertAllKeys(hs, k); }
  }

  lemma AllCarried(hs: seq<Header>)
    requires forall i :: 0 <= i < |hs| ==> ParsedPair(hs[i]) == hs[i]
    requires DistinctNames(ParsedPairs(hs))
    ensures DistinctNames(hs) && forall i :: 0 <= i < |hs| ==> Carried(hs[i])
  {
    assert ParsedPairs(hs) == hs;
    forall i | 0 <= i < |hs| ensures Carried(hs[i]) {
      assert ParsedPair(hs[i]) == hs[i];
      HeaderReadBack(hs[i]);
    }
  }
}
