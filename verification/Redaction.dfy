/** Redaction of secrets (src/redaction.rs): known values inside a text,
    sensitive keys inside JSON, and sensitive keys inside form-like bodies. */
module Redaction {
  import opened Text
  import opened Replacing

  const REDACTED := "[redacted]"

  // ----- known values -----

  predicate ShouldRedactLiteral(value: string) { Utf8Len(value) >= 4 && value != REDACTED }

  function RedactKnownValues(text: string, values: seq<string>): string
    decreases |values|
  {
    if values == [] then text
    else if ShouldRedactLiteral(values[0]) then
      RedactKnownValues(Replace(text, values[0], REDACTED), values[1..])
    else RedactKnownValues(text, values[1..])
  }

  /** No way of overlapping `v` with the marker is consistent. */
  ghost predicate NoClash(v: string) { Apart(v, REDACTED) }

  lemma {:induction false} StaysOut(text: string, values: seq<string>, v: string)
    requires NoClash(v) && v != "" && !Contains(text, v)
    ensures !Contains(RedactKnownValues(text, values), v)
    decreases |values|
  {
    if values != [] {
      var w := values[0];
      if ShouldRedactLiteral(w) {
        var next := Replace(text, w, REDACTED);
        KeptOut(text, w, REDACTED, v);
        StaysOut(next, values[1..], v);
      } else {
        StaysOut(text, values[1..], v);
      }
    }
  }

  /** A listed value that cannot overlap the marker is gone from the output,
      whatever the other values are and however they overlap. */
  lemma {:induction false} KnownValueGone(text: string, values: seq<string>, v: string)
    requires v in values && Utf8Len(v) >= 4 && NoClash(v)
    ensures !Contains(RedactKnownValues(text, values), v)
    decreases |values|
  {
    if v == REDACTED { assert AgreeAt(v, REDACTED, 0); }
    var w := values[0];
    if w == v {
      var next := Replace(text, v, REDACTED);
      Removed(text, v, REDACTED);
      StaysOut(next, values[1..], v);
    } else if ShouldRedactLiteral(w) {
      KnownValueGone(Replace(text, w, REDACTED), values[1..], v);
    } else {
      KnownValueGone(text, values[1..], v);
    }
  }

  /** Values without square brackets that are not part of the word "redacted". */
  lemma BracketFreeCannotClash(v: string)
    requires v != "" && !Contains("redacted", v)
    requires forall i :: 0 <= i < |v| ==> v[i] != '[' && v[i] != ']'
    ensures NoClash(v)
  {
    var word := "redacted";
    forall d | -|v| < d < |REDACTED| ensures !AgreeAt(v, REDACTED, d) {
      if d <= 0 {
        var k := -d;
        assert v[k] != REDACTED[d + k];
      } else if d + |v| >= |REDACTED| {
        var k := |REDACTED| - 1 - d;
        assert v[k] != REDACTED[d + k];
      } else if AgreeAt(v, REDACTED, d) {
        assert v == REDACTED[d..d + |v|] == word[d - 1..d - 1 + |v|];
        assert OccursAt(word, v, d - 1);
      }
    }
  }

  // ----- the condition is exact -----

  ghost predicate AlwaysGone(v: string) {
    forall text, values :: v in values ==> !Contains(RedactKnownValues(text, values), v)
  }

  function Repeat(c: char, n: nat): string { seq(n, _ => c) }

  /** A letter that differs from three given ones. */
  lemma OtherLetter(x: char, y: char, z: char) returns (c: char)
    ensures c != x && c != y && c != z && CharLen(c) == 1 && c != '['
  {
    c := if 'a' !in {x, y, z} then 'a' else if 'b' !in {x, y, z} then 'b' else if 'c' !in {x, y, z} then 'c' else 'd';
  }

  lemma {:induction false} RepeatLen(c: char, n: nat)
    requires CharLen(c) == 1
    ensures Utf8Len(Repeat(c, n)) == n
  {
    if n > 0 {
      RepeatLen(c, n - 1);
      assert Repeat(c, n)[1..] == Repeat(c, n - 1);
    }
  }

  /** In `pre` c...c `post`, with fitting ends, the filler is found only in its place
      and `v` nowhere. */
  lemma FillerStandsAlone(pre: string, c: char, n: nat, post: string, v: string)
    requires |pre| < |v| && |post| < |v| && |v| < n
    requires c != v[0] && c != v[|v| - 1] && (pre != "" ==> c != pre[|pre| - 1])
    ensures !Contains(pre + Repeat(c, n) + post, v)
    ensures !Contains(post, Repeat(c, n))
    ensures forall i :: 0 <= i < |pre| ==> !OccursAt(pre + Repeat(c, n) + post, Repeat(c, n), i)
  {
    var w := Repeat(c, n);
    var s := pre + w + post;
    forall i | 0 <= i && i + |v| <= |s| ensures !OccursAt(s, v, i) {
      assert s[i..i + |v|][0] == s[i] && s[i..i + |v|][|v| - 1] == s[i + |v| - 1];
    }
    forall i | 0 <= i < |pre| ensures !OccursAt(s, w, i) { FillerNotBefore(pre, c, n, post, i); }
  }

  lemma FillerNotBefore(pre: string, c: char, n: nat, post: string, i: nat)
    requires i < |pre| < n && c != pre[|pre| - 1]
    ensures !OccursAt(pre + Repeat(c, n) + post, Repeat(c, n), i)
  {
    var s, k := pre + Repeat(c, n) + post, |pre| - 1 - i;
    assert s[|pre| - 1] == pre[|pre| - 1] && Repeat(c, n)[k] == c;
    assert i + n <= |s| ==> s[i..i + n][k] == s[i + k];
  }

  /** Where the marker starts `d` places before `v`, the two ends of `v` complete it. */
  lemma EndsCompleteMarker(v: string, d: int, pre: string, post: string)
    requires v != "" && -|v| < d < |REDACTED| && AgreeAt(v, REDACTED, d)
    requires pre == if d < 0 then v[..-d] else ""
    requires post == if d + |v| > |REDACTED| then v[|REDACTED| - d..] else ""
    ensures Contains(pre + REDACTED + post, v)
  {
    var out := pre + REDACTED + post;
    var at := if d < 0 then 0 else d;
    forall k | 0 <= k < |v| ensures out[at + k] == v[k] {
      assert |pre| == at - d;
    }
    assert out[at..at + |v|] == v;
    assert OccursAt(out, v, at);
  }

  lemma RedactTwo(text: string, v: string, w: string)
    requires ShouldRedactLiteral(w) && v != "" && !Contains(text, v)
    ensures RedactKnownValues(text, [v, w]) == Replace(text, w, REDACTED)
  {
    ReplaceNothing(text, v, REDACTED);
    var next := Replace(text, w, REDACTED);
    assert [w][1..] == [];
    assert RedactKnownValues(text, [w]) == RedactKnownValues(next, []) == next;
    assert [v, w][1..] == [w];
  }

  /** With a suitable filler between two short ends, the output is the ends around the marker. */
  lemma FillerRedacted(pre: string, post: string, v: string) returns (text: string, w: string)
    requires |pre| < |v| && |post| < |v|
    ensures RedactKnownValues(text, [v, w]) == pre + REDACTED + post
  {
    var c := OtherLetter(v[0], v[|v| - 1], if pre == "" then ' ' else pre[|pre| - 1]);
    w := Repeat(c, |v| + 4);
    RepeatLen(c, |v| + 4);
    assert w[0] == c && REDACTED[0] == '[';
    FillerStandsAlone(pre, c, |v| + 4, post, v);
    ReplaceFirst(pre, w, post, REDACTED);
    text := pre + w + post;
    RedactTwo(text, v, w);
  }

  /** If `v` can overlap the marker, some text and list let it through. */
  lemma ClashLetsThrough(v: string, d: int)
    requires v != "" && -|v| < d < |REDACTED| && AgreeAt(v, REDACTED, d)
    ensures !AlwaysGone(v)
  {
    var pre := if d < 0 then v[..-d] else "";
    var post := if d + |v| > |REDACTED| then v[|REDACTED| - d..] else "";
    var text, w := FillerRedacted(pre, post, v);
    EndsCompleteMarker(v, d, pre, post);
    assert v in [v, w];
  }

  lemma ShortLetsThrough(v: string)
    requires Utf8Len(v) < 4
    ensures !AlwaysGone(v)
  {
    assert RedactKnownValues(v, [v]) == v;
    assert OccursAt(v, v, 0);
    assert v in [v];
  }

  /** A value never survives, for any text and any list holding it, exactly when it
      has at least 4 bytes and cannot overlap the marker. */
  lemma AlwaysGoneExactlyWhenNoClash(v: string)
    ensures AlwaysGone(v) <==> Utf8Len(v) >= 4 && NoClash(v)
  {
    if Utf8Len(v) < 4 {
      ShortLetsThrough(v);
    } else if NoClash(v) {
      forall text, values | v in values ensures !Contains(RedactKnownValues(text, values), v) {
        KnownValueGone(text, values, v);
      }
    } else {
      var d :| -|v| < d < |REDACTED| && AgreeAt(v, REDACTED, d);
      ClashLetsThrough(v, d);
    }
  }
}
