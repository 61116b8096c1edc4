/** Redaction by key (src/redaction.rs): JSON members and form-like pairs whose
    key is sensitive lose their value; nothing else changes. */
module KeyRedaction {
  import opened Text
  import opened Json
  import opened Redaction

  function Underscored(s: string): string {
    seq(|s|, i requires 0 <= i < |s| => if s[i] == '-' then '_' else s[i])
  }

  predicate IsSensitiveKey(raw: string) {
    var key := Underscored(Lower(Trim(raw)));
    || key in {"authorization", "cookie", "set_cookie", "x_api_key", "api_key", "access_token",
               "refresh_token", "password", "secret", "token"}
    || Contains(key, "password") || Contains(key, "secret") || EndsWith(key, "_token") || Contains(key, "api_key")
  }

  // ----- JSON -----

  /** `redact_json_value` */
  function RedactJson(v: Value): Value
    decreases v
  {
    match v
    case Obj(fields) => Obj(RedactFields(fields))
    case Arr(items) => Arr(RedactItems(items))
    case _ => v
  }

  function RedactItems(items: seq<Value>): (r: seq<Value>)
    ensures |r| == |items|
    decreases items
  {
    if items == [] then [] else [RedactJson(items[0])] + RedactItems(items[1..])
  }

  function RedactFields(fields: seq<Field>): (r: seq<Field>)
    ensures |r| == |fields|
    decreases fields
  {
    if fields == [] then []
    else
      var f := fields[0];
      [Field(f.key, if IsSensitiveKey(f.key) then Str(REDACTED) else RedactJson(f.value))] + RedactFields(fields[1..])
  }

  lemma {:induction false} RedactFieldsAt(fields: seq<Field>, k: nat)
    requires k < |fields|
    ensures RedactFields(fields)[k].key == fields[k].key
    ensures RedactFields(fields)[k].value ==
            if IsSensitiveKey(fields[k].key) then Str(REDACTED) else RedactJson(fields[k].value)
  {
    if k > 0 { RedactFieldsAt(fields[1..], k - 1); }
  }

  lemma {:induction false} RedactItemsAt(items: seq<Value>, k: nat)
    requires k < |items|
    ensures RedactItems(items)[k] == RedactJson(items[k])
  {
    if k > 0 { RedactItemsAt(items[1..], k - 1); }
  }

  /** The tree is rewritten in place, entry by entry. */
  method RedactJsonValue(value: Value) returns (r: Value)
    ensures r == RedactJson(value)
    decreases value
  {
    match value {
      case Obj(fields) =>
        var out := fields;
        for i := 0 to |fields|
          invariant |out| == |fields|
          invariant forall k :: 0 <= k < |fields| ==> out[k] == if k < i then RedactFields(fields)[k] else fields[k]
        {
          assert fields[i] in fields;
          RedactFieldsAt(fields, i);
          var child := Str(REDACTED);
          if !IsSensitiveKey(fields[i].key) { child := RedactJsonValue(fields[i].value); }
          out := out[i := Field(fields[i].key, child)];
        }
        assert out == RedactFields(fields);
        r := Obj(out);
      case Arr(items) =>
        var out := items;
        for i := 0 to |items|
          invariant |out| == |items|
          invariant forall k :: 0 <= k < |items| ==> out[k] == if k < i then RedactItems(items)[k] else items[k]
        {
          assert items[i] in items;
          RedactItemsAt(items, i);
          var item := RedactJsonValue(items[i]);
          out := out[i := item];
        }
        assert out == RedactItems(items);
        r := Arr(out);
      case _ => r := value;
    }
  }

  /** The same value apart from what stands under sensitive keys: the same keys in
      the same places, arrays of the same length, and the same leaves elsewhere. */
  ghost predicate AgreeOutside(a: Value, b: Value)
    decreases a
  {
    match a
    case Obj(fs) => b.Obj? && FieldsAgree(fs, b.fields)
    case Arr(xs) => b.Arr? && ItemsAgree(xs, b.items)
    case _ => a == b
  }

  ghost predicate ItemsAgree(xs: seq<Value>, ys: seq<Value>)
    decreases xs
  {
    if xs == [] then ys == [] else ys != [] && AgreeOutside(xs[0], ys[0]) && ItemsAgree(xs[1..], ys[1..])
  }

  ghost predicate FieldsAgree(fs: seq<Field>, gs: seq<Field>)
    decreases fs
  {
    if fs == [] then gs == []
    else
      && gs != [] && fs[0].key == gs[0].key
      && (IsSensitiveKey(fs[0].key) || AgreeOutside(fs[0].value, gs[0].value))
      && FieldsAgree(fs[1..], gs[1..])
  }

  /** Redaction reveals exactly what stands outside sensitive keys. */
  lemma {:induction false} RedactionRevealsOnlyTheRest(a: Value, b: Value)
    ensures RedactJson(a) == RedactJson(b) <==> AgreeOutside(a, b)
    decreases a
  {
    match a
    case Obj(fs) => if b.Obj? { FieldsReveal(fs, b.fields); }
    case Arr(xs) => if b.Arr? { ItemsReveal(xs, b.items); }
    case _ =>
  }

  lemma {:induction false} ItemsReveal(xs: seq<Value>, ys: seq<Value>)
    ensures RedactItems(xs) == RedactItems(ys) <==> ItemsAgree(xs, ys)
    decreases xs
  {
    if xs != [] && ys != [] {
      RedactionRevealsOnlyTheRest(xs[0], ys[0]);
      ItemsReveal(xs[1..], ys[1..]);
      assert RedactItems(xs)[0] == RedactJson(xs[0]) && RedactItems(xs)[1..] == RedactItems(xs[1..]);
      assert RedactItems(ys)[0] == RedactJson(ys[0]) && RedactItems(ys)[1..] == RedactItems(ys[1..]);
    }
  }

  lemma {:induction false} FieldsReveal(fs: seq<Field>, gs: seq<Field>)
    ensures RedactFields(fs) == RedactFields(gs) <==> FieldsAgree(fs, gs)
    decreases fs
  {
    if fs != [] && gs != [] {
      RedactionRevealsOnlyTheRest(fs[0].value, gs[0].value);
      FieldsReveal(fs[1..], gs[1..]);
      assert RedactFields(fs)[1..] == RedactFields(fs[1..]) && RedactFields(gs)[1..] == RedactFields(gs[1..]);
    }
  }

  /** A redacted value agrees with the original, so keys and lengths are kept. */
  lemma {:induction false} RedactedAgrees(v: Value)
    ensures AgreeOutside(v, RedactJson(v))
    decreases v
  {
    match v
    case Obj(fs) => FieldsRedactedAgree(fs);
    case Arr(xs) => ItemsRedactedAgree(xs);
    case _ =>
  }

  lemma {:induction false} ItemsRedactedAgree(xs: seq<Value>)
    ensures ItemsAgree(xs, RedactItems(xs))
    decreases xs
  {
    if xs != [] {
      RedactedAgrees(xs[0]);
      ItemsRedactedAgree(xs[1..]);
    }
  }

  lemma {:induction false} FieldsRedactedAgree(fs: seq<Field>)
    ensures FieldsAgree(fs, RedactFields(fs))
    decreases fs
  {
    if fs != [] {
      RedactedAgrees(fs[0].value);
      FieldsRedactedAgree(fs[1..]);
    }
  }

  lemma RedactJsonIdempotent(v: Value)
    ensures RedactJson(RedactJson(v)) == RedactJson(v)
  {
    RedactedAgrees(v);
    RedactionRevealsOnlyTheRest(v, RedactJson(v));
  }

  /** No value under a sensitive key is left at any depth. */
  ghost predicate Clean(v: Value)
    decreases v
  {
    match v
    case Obj(fields) => CleanFields(fields)
    case Arr(items) => CleanItems(items)
    case _ => true
  }

  ghost predicate CleanItems(items: seq<Value>)
    decreases items
  {
    items == [] || (Clean(items[0]) && CleanItems(items[1..]))
  }

  ghost predicate CleanFields(fields: seq<Field>)
    decreases fields
  {
    fields == [] || (
      (if IsSensitiveKey(fields[0].key) then fields[0].value == Str(REDACTED) else Clean(fields[0].value))
      && CleanFields(fields[1..]))
  }

  lemma {:induction false} RedactedIsClean(v: Value)
    ensures Clean(RedactJson(v))
    decreases v
  {
    match v
    case Obj(fs) => FieldsRedactedClean(fs);
    case Arr(xs) => ItemsRedactedClean(xs);
    case _ =>
  }

  lemma {:induction false} ItemsRedactedClean(xs: seq<Value>)
    ensures CleanItems(RedactItems(xs))
    decreases xs
  {
    if xs != [] {
      RedactedIsClean(xs[0]);
      ItemsRedactedClean(xs[1..]);
    }
  }

  lemma {:induction false} FieldsRedactedClean(fs: seq<Field>)
    ensures CleanFields(RedactFields(fs))
    decreases fs
  {
    if fs != [] {
      RedactedIsClean(fs[0].value);
      FieldsRedactedClean(fs[1..]);
    }
  }

  // ----- form-like bodies -----

  function Separator(body: string): char { if '&' in body then '&' else '\n' }

  /** The first position of '=', or the length. */
  function KeyEnd(part: string): (n: nat)
    ensures n <= |part| && '=' !in part[..n] && (n < |part| ==> part[n] == '=')
    ensures n == |part| <==> '=' !in part
  {
    if part == "" || part[0] == '=' then 0
    else
      assert part == [part[0]] + part[1..];
      1 + KeyEnd(part[1..])
  }

  predicate IsPair(part: string) { '=' in part }

  function KeyOf(part: string): string { part[..KeyEnd(part)] }

  predicate HidesValue(part: string) { IsPair(part) && IsSensitiveKey(KeyOf(part)) }

  function RedactPart(part: string): string {
    if HidesValue(part) then KeyOf(part) + "=" + REDACTED else part
  }

  function RedactParts(parts: seq<string>): (r: seq<string>)
    ensures |r| == |parts| && forall i :: 0 <= i < |r| ==> r[i] == RedactPart(parts[i])
  {
    seq(|parts|, i requires 0 <= i < |parts| => RedactPart(parts[i]))
  }

  /** `redact_urlencoded_like` */
  function RedactForm(body: string): string {
    Join(RedactParts(Split(body, Separator(body))), Separator(body))
  }

  lemma {:induction false} KeyEndUnique(part: string, n: nat)
    requires n < |part| && part[n] == '=' && '=' !in part[..n]
    ensures KeyEnd(part) == n
  {
    if n > 0 {
      assert part[..n] == [part[0]] + part[1..][..n - 1];
      KeyEndUnique(part[1..], n - 1);
    }
  }

  lemma KeyOfRedacted(part: string)
    ensures KeyOf(RedactPart(part)) == KeyOf(part) && (IsPair(RedactPart(part)) <==> IsPair(part))
  {
    if HidesValue(part) {
      var r := RedactPart(part);
      var n := |KeyOf(part)|;
      assert r[n] == '=' && r[..n] == KeyOf(part);
      KeyEndUnique(r, n);
    }
  }

  lemma RedactedPartPlain(part: string, c: char)
    requires c !in part && (c == '&' || c == '\n')
    ensures c !in RedactPart(part)
  {
    assert '&' !in REDACTED && '\n' !in REDACTED;
  }

  /** The redacted body splits, at the same separator, into the redacted parts. */
  lemma RedactedFormParts(body: string)
    ensures Separator(RedactForm(body)) == Separator(body)
    ensures Split(RedactForm(body), Separator(body)) == RedactParts(Split(body, Separator(body)))
  {
    var c := Separator(body);
    var parts := Split(body, c);
    var redacted := RedactParts(parts);
    SplitPieces(body, c);
    forall p | p in redacted ensures c !in p {
      var i :| 0 <= i < |redacted| && redacted[i] == p;
      RedactedPartPlain(parts[i], c);
    }
    SplitJoin(redacted, c);
    if c == '&' {
      SplitPieces(RedactForm(body), '&');
    } else {
      forall p | p in redacted ensures '&' !in p {
        var i :| 0 <= i < |redacted| && redacted[i] == p;
        assert '&' !in parts[i];
        RedactedPartPlain(parts[i], '&');
      }
      JoinChars(redacted, c, '&');
    }
  }

  lemma {:induction false} JoinChars(parts: seq<string>, c: char, x: char)
    requires x != c && forall p :: p in parts ==> x !in p
    ensures x !in Join(parts, c)
  {
    if |parts| > 1 { JoinChars(parts[1..], c, x); }
  }

  lemma RedactPartTwice(part: string)
    ensures RedactPart(RedactPart(part)) == RedactPart(part)
  {
    KeyOfRedacted(part);
  }

  /** A second redaction finds the same separator and the same parts. */
  lemma RedactFormIdempotent(body: string)
    ensures RedactForm(RedactForm(body)) == RedactForm(body)
  {
    RedactedFormParts(body);
    var parts := RedactParts(Split(body, Separator(body)));
    forall i | 0 <= i < |parts| ensures RedactParts(parts)[i] == parts[i] {
      RedactPartTwice(Split(body, Separator(body))[i]);
    }
    assert RedactParts(parts) == parts;
  }

  /** A form is left alone exactly when no sensitive key in it has a value to hide. */
  lemma RedactFormFixed(body: string)
    ensures RedactForm(body) == body <==>
            forall p :: p in Split(body, Separator(body)) && HidesValue(p) ==> p == KeyOf(p) + "=" + REDACTED
  {
    var parts := Split(body, Separator(body));
    JoinSplit(body, Separator(body));
    RedactedFormParts(body);
    if RedactForm(body) == body {
      forall p | p in parts ensures RedactPart(p) == p {
        var i :| 0 <= i < |parts| && parts[i] == p;
        assert RedactParts(parts)[i] == parts[i];
      }
    } else {
      assert RedactParts(parts) != parts;
      var i :| 0 <= i < |parts| && RedactParts(parts)[i] != parts[i];
      assert parts[i] in parts;
    }
  }

  predicate PartAgrees(x: string, y: string) {
    x == y || (HidesValue(x) && HidesValue(y) && KeyOf(x) == KeyOf(y))
  }

  /** The same separator and the same parts, apart from the values of sensitive keys. */
  ghost predicate FormsAgree(a: string, b: string) {
    var xs, ys := Split(a, Separator(a)), Split(b, Separator(b));
    Separator(a) == Separator(b) && |xs| == |ys| && forall i :: 0 <= i < |xs| ==> PartAgrees(xs[i], ys[i])
  }

  lemma PartReveals(x: string, y: string)
    ensures RedactPart(x) == RedactPart(y) <==> PartAgrees(x, y)
  {
    KeyOfRedacted(x);
    KeyOfRedacted(y);
  }

  /** Form redaction, too, reveals exactly what stands outside sensitive keys. */
  lemma FormRedactionRevealsOnlyTheRest(a: string, b: string)
    ensures RedactForm(a) == RedactForm(b) <==> FormsAgree(a, b)
  {
    var xs, ys := Split(a, Separator(a)), Split(b, Separator(b));
    RedactedFormParts(a);
    RedactedFormParts(b);
    if RedactForm(a) == RedactForm(b) {
      assert RedactParts(xs) == RedactParts(ys);
      forall i | 0 <= i < |xs| ensures PartAgrees(xs[i], ys[i]) {
        assert RedactParts(xs)[i] == RedactParts(ys)[i];
        PartReveals(xs[i], ys[i]);
      }
    }
    if FormsAgree(a, b) {
      forall i | 0 <= i < |xs| ensures RedactParts(xs)[i] == RedactParts(ys)[i] {
        PartReveals(xs[i], ys[i]);
      }
      assert RedactParts(xs) == RedactParts(ys);
    }
  }

  // ----- redaction, by what it keeps and what it hides -----

  lemma {:induction false} CleanIsFixed(v: Value)
    requires Clean(v)
    ensures RedactJson(v) == v
    decreases v
  {
    match v
    case Obj(fs) => CleanFieldsFixed(fs);
    case Arr(xs) => CleanItemsFixed(xs);
    case _ =>
  }

  lemma {:induction false} CleanItemsFixed(xs: seq<Value>)
    requires CleanItems(xs)
    ensures RedactItems(xs) == xs
    decreases xs
  {
    if xs != [] {
      CleanIsFixed(xs[0]);
      CleanItemsFixed(xs[1..]);
    }
  }

  lemma {:induction false} CleanFieldsFixed(fs: seq<Field>)
    requires CleanFields(fs)
    ensures RedactFields(fs) == fs
    decreases fs
  {
    if fs != [] {
      if !IsSensitiveKey(fs[0].key) { CleanIsFixed(fs[0].value); }
      CleanFieldsFixed(fs[1..]);
    }
  }

  /** The redaction of a value is the only one that agrees with it outside sensitive keys
      and has nothing but the marker under them. */
  lemma RedactJsonExactly(v: Value, r: Value)
    ensures r == RedactJson(v) <==> AgreeOutside(v, r) && Clean(r)
  {
    RedactedAgrees(v);
    RedactedIsClean(v);
    RedactionRevealsOnlyTheRest(v, r);
    if Clean(r) { CleanIsFixed(r); }
  }

  /** Nothing but the marker under a sensitive key. */
  ghost predicate CleanForm(body: string) {
    forall p :: p in Split(body, Separator(body)) && HidesValue(p) ==> p == KeyOf(p) + "=" + REDACTED
  }

  lemma RedactFormExactly(body: string, out: string)
    ensures out == RedactForm(body) <==> FormsAgree(body, out) && CleanForm(out)
  {
    RedactFormIdempotent(body);
    FormRedactionRevealsOnlyTheRest(body, out);
    RedactFormFixed(out);
  }

  /** One key spelled another way: the other case, hyphens for underscores. */
  predicate SameKey(a: string, b: string) {
    |a| == |b| && forall i :: 0 <= i < |a| ==> SameLetter(a[i], b[i]) || (a[i] in {'-', '_'} && b[i] in {'-', '_'})
  }

  /** However a key is spelled, and whatever white space stands around it. */
  lemma SensitiveHoweverSpelled(raw: string, core: string, key: string)
    requires Trimmed(core) && Pads(raw, core) && Trimmed(key) && SameKey(core, key)
    ensures IsSensitiveKey(raw) <==> IsSensitiveKey(key)
  {
    TrimExactly(raw, core);
    TrimFixed(key);
    var a, b := Underscored(Lower(core)), Underscored(Lower(key));
    forall i | 0 <= i < |a| ensures a[i] == b[i] {
      assert SameLetter(core[i], key[i]) || (core[i] in {'-', '_'} && key[i] in {'-', '_'});
    }
    assert a == b;
  }
}
