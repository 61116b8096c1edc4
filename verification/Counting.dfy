/** Counting characters of a kind. */
module Counting {
  import opened Text

  /** How many characters of `s` belong to `cs`. */
  ghost function Count(s: string, cs: set<char>): nat {
    if s == "" then 0 else (if s[0] in cs then 1 else 0) + Count(s[1..], cs)
  }

  lemma {:induction false} CountAppend(a: string, b: string, cs: set<char>)
    ensures Count(a + b, cs) == Count(a, cs) + Count(b, cs)
  {
    if a == "" {
      assert a + b == b;
    } else {
      CountAppend(a[1..], b, cs);
      assert (a + b)[1..] == a[1..] + b;
    }
  }

  lemma {:induction false} CountMember(s: string, cs: set<char>)
    ensures Count(s, cs) == 0 <==> forall c :: c in s ==> c !in cs
  {
    if s != "" {
      CountMember(s[1..], cs);
      assert s == [s[0]] + s[1..];
    }
  }

  lemma {:induction false} CountReplace(s: string, w: string, fill: string, cs: set<char>)
    requires w != ""
    ensures Count(fill, cs) == Count(w, cs) ==> Count(Replace(s, w, fill), cs) == Count(s, cs)
    ensures Count(fill, cs) <= Count(w, cs) ==> Count(Replace(s, w, fill), cs) <= Count(s, cs)
    decreases |s|
  {
    if |w| <= |s| && s[..|w|] == w {
      CountReplace(s[|w|..], w, fill, cs);
      CountAppend(w, s[|w|..], cs);
      CountAppend(fill, Replace(s[|w|..], w, fill), cs);
      assert s == w + s[|w|..];
    } else if |w| <= |s| {
      CountReplace(s[1..], w, fill, cs);
      CountAppend([s[0]], Replace(s[1..], w, fill), cs);
    }
  }

  /** Replacing something by less loses. */
  lemma {:induction false} CountReplaceLess(s: string, w: string, fill: string, cs: set<char>)
    requires Contains(s, w) && Count(fill, cs) < Count(w, cs)
    ensures w != "" && Count(Replace(s, w, fill), cs) < Count(s, cs)
    decreases |s|
  {
    var at :| 0 <= at <= |s| && OccursAt(s, w, at);
    if s[..|w|] == w {
      CountReplace(s[|w|..], w, fill, cs);
      CountAppend(w, s[|w|..], cs);
      CountAppend(fill, Replace(s[|w|..], w, fill), cs);
      assert s == w + s[|w|..];
    } else {
      assert at > 0 && s[1..][at - 1..at - 1 + |w|] == s[at..at + |w|];
      assert OccursAt(s[1..], w, at - 1);
      CountReplaceLess(s[1..], w, fill, cs);
      CountAppend([s[0]], Replace(s[1..], w, fill), cs);
    }
  }

  lemma CountPart(a: string, b: string, cs: set<char>)
    ensures Count(a, cs) <= Count(a + b, cs) && Count(b, cs) <= Count(a + b, cs)
  {
    CountAppend(a, b, cs);
  }

  lemma CountTrim(s: string, cs: set<char>)
    ensures Count(Trim(s), cs) <= Count(s, cs)
  {
    var a := TrimStart(s);
    TrimStartSuffix(s);
    assert s == s[..|s| - |a|] + a;
    CountPart(s[..|s| - |a|], a, cs);
    TrimEndLast(a);
    assert a == Trim(s) + a[|Trim(s)|..];
    CountPart(Trim(s), a[|Trim(s)|..], cs);
  }

  /** Wrapping in characters of another kind. */
  lemma CountInside(before: string, s: string, after: string, cs: set<char>)
    requires forall c :: c in before + after ==> c !in cs
    ensures Count(before + s + after, cs) == Count(s, cs)
  {
    assert forall c :: c in before || c in after ==> c in before + after;
    CountMember(before, cs);
    CountMember(after, cs);
    CountAppend(before, s, cs);
    CountAppend(before + s, after, cs);
  }
}
