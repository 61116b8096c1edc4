/** What `str::replace` can and cannot leave behind. */
module Replacing {
  import opened Options
  import opened Text

  /** `v` and `fill`, laid over each other with `fill` starting `d` places before
      `v`, agree wherever they overlap. */
  ghost predicate AgreeAt(v: string, fill: string, d: int) {
    forall k :: 0 <= k < |v| && 0 <= d + k < |fill| ==> v[k] == fill[d + k]
  }

  /** No way of overlapping `v` with `fill` is consistent. */
  ghost predicate Apart(v: string, fill: string) {
    forall d :: -|v| < d < |fill| ==> !AgreeAt(v, fill, d)
  }

  /** An occurrence of `v` cannot touch an inserted filling. */
  lemma OccursBesideFill(u: string, fill: string, rest: string, v: string, at: nat)
    requires Apart(v, fill) && v != "" && OccursAt(u + fill + rest, v, at)
    ensures OccursAt(u, v, at) || (at >= |u| + |fill| && OccursAt(rest, v, at - |u| - |fill|))
  {
    var s := u + fill + rest;
    var d := at - |u|;
    assert forall k :: 0 <= k < |v| ==> v[k] == s[at..at + |v|][k] == s[at + k];
    if -|v| < d < |fill| {
      assert AgreeAt(v, fill, d);
    } else if d <= -|v| {
      assert u[at..at + |v|] == s[at..at + |v|];
    } else {
      var b := at - |u| - |fill|;
      assert rest[b..b + |v|] == s[at..at + |v|];
    }
  }

  lemma OccursInPart(u: string, s: string, v: string, at: nat)
    ensures OccursAt(u, v, at) ==> OccursAt(u + s, v, at)
    ensures OccursAt(s, v, at) ==> OccursAt(u + s, v, |u| + at)
  {
    if OccursAt(u, v, at) { assert (u + s)[at..at + |v|] == u[at..at + |v|]; }
    if OccursAt(s, v, at) { assert (u + s)[|u| + at..|u| + at + |v|] == s[at..at + |v|]; }
  }

  /** Replacing anything by the filling cannot create an occurrence of `v`. */
  lemma {:induction false} ReplaceKeepsOut(u: string, s: string, w: string, fill: string, v: string, at: nat)
    requires Apart(v, fill) && v != "" && w != "" && !Contains(u + s, v)
    ensures !OccursAt(u + Replace(s, w, fill), v, at)
    decreases |s|
  {
    if OccursAt(u + Replace(s, w, fill), v, at) {
      if |s| < |w| {
      } else if s[..|w|] == w {
        var s' := s[|w|..];
        var rest := Replace(s', w, fill);
        assert u + (fill + rest) == u + fill + rest;
        OccursBesideFill(u, fill, rest, v, at);
        if OccursAt(u, v, at) {
          OccursInPart(u, s, v, at);
        } else {
          assert u + s == u + w + s';
          forall i | 0 <= i <= |s'| ensures !OccursAt(s', v, i) {
            OccursInPart(u + w, s', v, i);
          }
          assert "" + s' == s' && "" + rest == rest;
          ReplaceKeepsOut("", s', w, fill, v, at - |u| - |fill|);
        }
      } else {
        assert u + s == (u + [s[0]]) + s[1..];
        assert u + Replace(s, w, fill) == (u + [s[0]]) + Replace(s[1..], w, fill);
        ReplaceKeepsOut(u + [s[0]], s[1..], w, fill, v, at);
      }
    }
  }

  /** Passing over a character at which `v` does not start. */
  lemma NotYet(u: string, s: string, v: string)
    requires |s| >= |v| > 0 && s[..|v|] != v && forall i :: 0 <= i < |u| ==> !OccursAt(u + s, v, i)
    ensures u + s == (u + [s[0]]) + s[1..]
    ensures forall i :: 0 <= i < |u + [s[0]]| ==> !OccursAt((u + [s[0]]) + s[1..], v, i)
  {
    assert u + s == (u + [s[0]]) + s[1..];
    assert (u + s)[|u|..|u| + |v|] == s[..|v|];
  }

  /** Replacing `v` itself leaves no occurrence, not even across a seam. */
  lemma {:induction false} ReplaceRemoves(u: string, s: string, v: string, fill: string, at: nat)
    requires Apart(v, fill) && v != "" && forall i :: 0 <= i < |u| ==> !OccursAt(u + s, v, i)
    ensures !OccursAt(u + Replace(s, v, fill), v, at)
    decreases |s|
  {
    if OccursAt(u + Replace(s, v, fill), v, at) {
      if |s| < |v| {
      } else if s[..|v|] == v {
        var s' := s[|v|..];
        var rest := Replace(s', v, fill);
        assert u + (fill + rest) == u + fill + rest;
        OccursBesideFill(u, fill, rest, v, at);
        if OccursAt(u, v, at) {
          OccursInPart(u, s, v, at);
        } else {
          assert "" + rest == rest;
          ReplaceRemoves("", s', v, fill, at - |u| - |fill|);
        }
      } else {
        NotYet(u, s, v);
        assert u + Replace(s, v, fill) == (u + [s[0]]) + Replace(s[1..], v, fill);
        ReplaceRemoves(u + [s[0]], s[1..], v, fill, at);
      }
    }
  }

  /** Replacing one pattern cannot bring in another that keeps apart from the filling. */
  lemma KeptOut(s: string, w: string, fill: string, v: string)
    requires Apart(v, fill) && v != "" && w != "" && !Contains(s, v)
    ensures !Contains(Replace(s, w, fill), v)
  {
    var next := Replace(s, w, fill);
    forall at | 0 <= at <= |next| ensures !OccursAt(next, v, at) {
      assert "" + s == s && "" + next == next;
      ReplaceKeepsOut("", s, w, fill, v, at);
    }
  }

  /** A pattern that keeps apart from its filling is gone after one replacement. */
  lemma Removed(s: string, v: string, fill: string)
    requires Apart(v, fill) && v != ""
    ensures !Contains(Replace(s, v, fill), v)
  {
    var next := Replace(s, v, fill);
    forall at | 0 <= at <= |next| ensures !OccursAt(next, v, at) {
      assert "" + s == s && "" + next == next;
      ReplaceRemoves("", s, v, fill, at);
    }
  }

  lemma {:induction false} ReplaceNothing(s: string, w: string, fill: string)
    requires w != "" && !Contains(s, w)
    ensures Replace(s, w, fill) == s
  {
    if |w| <= |s| {
      assert OccursAt(s, w, 0) <==> s[..|w|] == w;
      forall i | 0 <= i <= |s[1..]| ensures !OccursAt(s[1..], w, i) {
        assert s == [s[0]] + s[1..];
        OccursInPart([s[0]], s[1..], w, i);
      }
      ReplaceNothing(s[1..], w, fill);
    }
  }

  lemma {:induction false} ReplaceFirst(pre: string, w: string, post: string, fill: string)
    requires w != "" && !Contains(post, w)
    requires forall i :: 0 <= i < |pre| ==> !OccursAt(pre + w + post, w, i)
    ensures Replace(pre + w + post, w, fill) == pre + fill + post
  {
    var s := pre + w + post;
    if pre == "" {
      assert s[..|w|] == w && s[|w|..] == post;
      ReplaceNothing(post, w, fill);
      assert pre + fill + post == fill + post;
    } else {
      assert !OccursAt(s, w, 0);
      var tail := pre[1..] + w + post;
      assert s == [s[0]] + tail && s[1..] == tail;
      forall i | 0 <= i < |pre[1..]| ensures !OccursAt(tail, w, i) {
        OccursInPart([s[0]], tail, w, i);
      }
      ReplaceFirst(pre[1..], w, post, fill);
      assert [s[0]] + (pre[1..] + fill + post) == pre + fill + post;
    }
  }

  /** A pattern without `c` that starts before a `c` ends before it. */
  lemma FitsBefore(a: string, c: char, b: string, w: string)
    requires c !in w
    ensures |w| <= |a + [c] + b| && (a + [c] + b)[..|w|] == w <==> |w| <= |a| && a[..|w|] == w
  {
    var s := a + [c] + b;
    if |w| <= |a| {
      assert s[..|w|] == a[..|w|];
    } else if |w| <= |s| {
      assert s[..|w|][|a|] == c;
    }
  }

  lemma ReplaceHit(s: string, w: string, fill: string)
    requires w != "" && |w| <= |s| && s[..|w|] == w
    ensures Replace(s, w, fill) == fill + Replace(s[|w|..], w, fill)
  {}

  lemma ReplaceStep(s: string, w: string, fill: string)
    requires w != "" && s != "" && !(|w| <= |s| && s[..|w|] == w)
    ensures Replace(s, w, fill) == [s[0]] + Replace(s[1..], w, fill)
  {}

  lemma ReplaceSkip(c: char, b: string, w: string, fill: string)
    requires w != "" && c !in w
    ensures Replace([c] + b, w, fill) == [c] + Replace(b, w, fill)
  {
    var s := [c] + b;
    FitsBefore("", c, b, w);
    assert "" + [c] + b == s && s[1..] == b;
    ReplaceStep(s, w, fill);
  }

  lemma AroundHit(a: string, c: char, b: string, w: string, fill: string)
    requires w != "" && c !in w && |w| <= |a| && a[..|w|] == w
    requires Replace(a[|w|..] + [c] + b, w, fill) == Replace(a[|w|..], w, fill) + [c] + Replace(b, w, fill)
    ensures Replace(a + [c] + b, w, fill) == Replace(a, w, fill) + [c] + Replace(b, w, fill)
  {
    FitsBefore(a, c, b, w);
    assert (a + [c] + b)[|w|..] == a[|w|..] + [c] + b;
    ReplaceHit(a + [c] + b, w, fill);
    ReplaceHit(a, w, fill);
    Reassociate(fill, Replace(a[|w|..], w, fill) + [c], Replace(b, w, fill));
    Reassociate(fill, Replace(a[|w|..], w, fill), [c]);
  }

  lemma AroundStep(a: string, c: char, b: string, w: string, fill: string)
    requires w != "" && c !in w && a != "" && !(|w| <= |a| && a[..|w|] == w)
    requires Replace(a[1..] + [c] + b, w, fill) == Replace(a[1..], w, fill) + [c] + Replace(b, w, fill)
    ensures Replace(a + [c] + b, w, fill) == Replace(a, w, fill) + [c] + Replace(b, w, fill)
  {
    FitsBefore(a, c, b, w);
    assert (a + [c] + b)[1..] == a[1..] + [c] + b;
    ReplaceStep(a + [c] + b, w, fill);
    ReplaceStep(a, w, fill);
    Reassociate([a[0]], Replace(a[1..], w, fill) + [c], Replace(b, w, fill));
    Reassociate([a[0]], Replace(a[1..], w, fill), [c]);
  }

  /** Replacement works separately on both sides of a character outside the pattern. */
  lemma {:induction false} ReplaceAround(a: string, c: char, b: string, w: string, fill: string)
    requires w != "" && c !in w
    ensures Replace(a + [c] + b, w, fill) == Replace(a, w, fill) + [c] + Replace(b, w, fill)
    decreases |a|
  {
    if a == "" {
      ReplaceSkip(c, b, w, fill);
      assert a + [c] + b == [c] + b;
    } else if |w| <= |a| && a[..|w|] == w {
      ReplaceAround(a[|w|..], c, b, w, fill);
      AroundHit(a, c, b, w, fill);
    } else {
      ReplaceAround(a[1..], c, b, w, fill);
      AroundStep(a, c, b, w, fill);
    }
  }
}
