/** Canonical JSON and the optimistic preconditions that hash it
    (src/control_plane/assistant_actions.rs). */
module Canonical {
  import opened Options
  import opened Json

  /** The order of `BTreeMap<String, _>`: UTF-8 keeps the order of code points. */
  predicate Less(a: string, b: string) {
    if b == "" then false
    else if a == "" then true
    else a[0] < b[0] || (a[0] == b[0] && Less(a[1..], b[1..]))
  }

  lemma {:induction false} LessTotal(a: string, b: string)
    ensures Less(a, b) || Less(b, a) || a == b
    ensures !Less(a, a) && !(Less(a, b) && Less(b, a))
  {
    if a != "" {
      LessTotal(a[1..], if b == "" then "" else b[1..]);
      if b != "" {
        assert a == [a[0]] + a[1..] && b == [b[0]] + b[1..];
      }
    }
  }

  lemma {:induction false} LessTransitive(a: string, b: string, c: string)
    requires Less(a, b) && Less(b, c)
    ensures Less(a, c)
  {
    if a != "" && a[0] == b[0] == c[0] {
      LessTransitive(a[1..], b[1..], c[1..]);
    }
  }

  // ----- the canonical form -----

  /** `BTreeMap::insert` on the entries in key order. */
  function InsertByKey(m: seq<Field>, f: Field): seq<Field> {
    if m == [] then [f]
    else if f.key == m[0].key then [f] + m[1..]
    else if Less(f.key, m[0].key) then [f] + m
    else [m[0]] + InsertByKey(m[1..], f)
  }

  function Canonicalize(v: Value): Value
    decreases v
  {
    match v
    case Obj(fields) => Obj(CollectFields(fields))
    case Arr(items) => Arr(CanonicalItems(items))
    case _ => v
  }

  function CanonicalItems(items: seq<Value>): (r: seq<Value>)
    ensures |r| == |items|
    decreases items
  {
    if items == [] then [] else [Canonicalize(items[0])] + CanonicalItems(items[1..])
  }

  /** The canonicalised entries, collected into a map one after the other. */
  function CollectFields(fields: seq<Field>): seq<Field>
    decreases fields
  {
    if fields == [] then []
    else
      var n := |fields| - 1;
      InsertByKey(CollectFields(fields[..n]), Field(fields[n].key, Canonicalize(fields[n].value)))
  }

  /** Equal up to the order of object keys, at every depth. */
  ghost predicate Equivalent(a: Value, b: Value)
    decreases a
  {
    match a
    case Arr(xs) => b.Arr? && |xs| == |b.items| && forall i :: 0 <= i < |xs| ==> Equivalent(xs[i], b.items[i])
    case Obj(fs) =>
      && b.Obj?
      && (forall i :: 0 <= i < |fs| ==> Matched(fs[i], b.fields))
      && (forall j :: 0 <= j < |b.fields| ==> HasKey(fs, b.fields[j].key))
    case _ => a == b
  }

  /** Some field of `gs` has the key of `f` and an equivalent value. */
  ghost predicate Matched(f: Field, gs: seq<Field>)
    decreases f
  {
    exists j :: 0 <= j < |gs| && gs[j].key == f.key && Equivalent(f.value, gs[j].value)
  }

  // ----- what collecting does -----

  ghost predicate StrictlySorted(m: seq<Field>) {
    forall i, j :: 0 <= i < j < |m| ==> Less(m[i].key, m[j].key)
  }

  ghost predicate SameElements(m: seq<Field>, n: seq<Field>) {
    forall f :: f in m <==> f in n
  }

  lemma {:induction false} InsertSorts(m: seq<Field>, f: Field)
    requires StrictlySorted(m) && forall g :: g in m ==> g.key != f.key
    ensures StrictlySorted(InsertByKey(m, f))
    ensures forall g :: g in InsertByKey(m, f) <==> g in m || g == f
  {
    if m != [] {
      assert m[0] in m && m == [m[0]] + m[1..];
      LessTotal(f.key, m[0].key);
      if Less(f.key, m[0].key) {
        forall j | 0 < j < |m| ensures Less(f.key, m[j].key) {
          LessTransitive(f.key, m[0].key, m[j].key);
        }
      } else {
        InsertSorts(m[1..], f);
        var rest := InsertByKey(m[1..], f);
        forall g | g in rest ensures Less(m[0].key, g.key) {
          if g != f { var k :| 1 <= k < |m| && m[k] == g; }
        }
      }
    }
  }

  ghost function CanonicalField(f: Field): Field { Field(f.key, Canonicalize(f.value)) }

  /** `x` is the canonical form of one of the fields. */
  ghost predicate IsFormOf(x: Field, fields: seq<Field>) {
    exists i :: 0 <= i < |fields| && CanonicalField(fields[i]) == x
  }

  lemma {:induction false} CollectSorts(fields: seq<Field>)
    requires DistinctKeys(fields)
    ensures StrictlySorted(CollectFields(fields))
    ensures forall x :: x in CollectFields(fields) <==> IsFormOf(x, fields)
  {
    if fields != [] {
      var n := |fields| - 1;
      CollectSorts(fields[..n]);
      var rest, last := CollectFields(fields[..n]), CanonicalField(fields[n]);
      forall x ensures IsFormOf(x, fields) <==> IsFormOf(x, fields[..n]) || x == last {
        if IsFormOf(x, fields[..n]) {
          var i :| 0 <= i < n && CanonicalField(fields[..n][i]) == x;
          assert CanonicalField(fields[i]) == x;
        }
        if IsFormOf(x, fields) {
          var i :| 0 <= i < |fields| && CanonicalField(fields[i]) == x;
          if i < n { assert CanonicalField(fields[..n][i]) == x; }
        }
      }
      forall g | g in rest ensures g.key != fields[n].key {
        var k :| 0 <= k < n && CanonicalField(fields[..n][k]) == g;
      }
      InsertSorts(rest, last);
    }
  }

  lemma NonEmptyTogether(m: seq<Field>, n: seq<Field>)
    requires SameElements(m, n)
    ensures m == [] <==> n == []
  {
    if m != [] { assert m[0] in n; }
    if n != [] { assert n[0] in m; }
  }

  /** Both sequences start with their least element. */
  lemma SameHead(m: seq<Field>, n: seq<Field>)
    requires StrictlySorted(m) && StrictlySorted(n) && SameElements(m, n)
    requires m != [] && n != []
    ensures m[0] == n[0]
  {
    assert m[0] in m && n[0] in n;
    var j :| 0 <= j < |n| && n[j] == m[0];
    var i :| 0 <= i < |m| && m[i] == n[0];
    LessTotal(m[0].key, n[0].key);
  }

  /** A strictly sorted sequence is determined by its elements. */
  lemma {:induction false} SortedUnique(m: seq<Field>, n: seq<Field>)
    requires StrictlySorted(m) && StrictlySorted(n) && SameElements(m, n)
    ensures m == n
  {
    if m == [] || n == [] {
      NonEmptyTogether(m, n);
    } else {
      SameHead(m, n);
      TailElements(m);
      TailElements(n);
      SortedUnique(m[1..], n[1..]);
      assert m == [m[0]] + m[1..] && n == [n[0]] + n[1..];
    }
  }

  lemma TailElements(m: seq<Field>)
    requires m != [] && StrictlySorted(m)
    ensures forall f :: f in m[1..] <==> f in m && f != m[0]
  {
    LessTotal(m[0].key, m[0].key);
    assert m == [m[0]] + m[1..];
    forall f | f in m[1..] ensures f != m[0] {
      var k :| 1 <= k < |m| && m[k] == f;
    }
  }

  lemma {:induction false} CanonicalItemsAt(items: seq<Value>, i: nat)
    requires i < |items|
    ensures CanonicalItems(items)[i] == Canonicalize(items[i])
  {
    if i > 0 { CanonicalItemsAt(items[1..], i - 1); }
  }

  // ----- canonical form decides equivalence -----

  lemma {:induction false} EquivalentGivesSameForm(a: Value, b: Value)
    requires WellFormed(a) && WellFormed(b) && Equivalent(a, b)
    ensures Canonicalize(a) == Canonicalize(b)
    decreases a
  {
    match a
    case Arr(xs) =>
      forall i | 0 <= i < |xs| ensures CanonicalItems(xs)[i] == CanonicalItems(b.items)[i] {
        EquivalentGivesSameForm(xs[i], b.items[i]);
        CanonicalItemsAt(xs, i);
        CanonicalItemsAt(b.items, i);
      }
    case Obj(fs) =>
      var gs := b.fields;
      forall i | 0 <= i < |fs| ensures IsFormOf(CanonicalField(fs[i]), gs) {
        assert Matched(fs[i], gs);
        var j :| 0 <= j < |gs| && gs[j].key == fs[i].key && Equivalent(fs[i].value, gs[j].value);
        EquivalentGivesSameForm(fs[i].value, gs[j].value);
        assert CanonicalField(gs[j]) == CanonicalField(fs[i]);
      }
      SameForms(fs, gs);
    case _ =>
  }

  /** With distinct keys, matching every field of `fs` matches every key of `gs`. */
  lemma SameForms(fs: seq<Field>, gs: seq<Field>)
    requires DistinctKeys(fs) && DistinctKeys(gs)
    requires forall i :: 0 <= i < |fs| ==> IsFormOf(CanonicalField(fs[i]), gs)
    requires forall j :: 0 <= j < |gs| ==> HasKey(fs, gs[j].key)
    ensures CollectFields(fs) == CollectFields(gs)
  {
    forall x ensures IsFormOf(x, fs) <==> IsFormOf(x, gs) {
      if IsFormOf(x, gs) {
        var j :| 0 <= j < |gs| && CanonicalField(gs[j]) == x;
        var i :| 0 <= i < |fs| && fs[i].key == gs[j].key;
        var k :| 0 <= k < |gs| && CanonicalField(gs[k]) == CanonicalField(fs[i]);
        assert k == j;
      }
    }
    CollectSorts(fs);
    CollectSorts(gs);
    SortedUnique(CollectFields(fs), CollectFields(gs));
  }

  lemma {:induction false} SameFormGivesEquivalent(a: Value, b: Value)
    requires WellFormed(a) && WellFormed(b) && Canonicalize(a) == Canonicalize(b)
    ensures Equivalent(a, b)
    decreases a
  {
    match a
    case Arr(xs) =>
      assert |CanonicalItems(xs)| == |CanonicalItems(b.items)|;
      forall i | 0 <= i < |xs| ensures Equivalent(xs[i], b.items[i]) {
        CanonicalItemsAt(xs, i);
        CanonicalItemsAt(b.items, i);
        SameFormGivesEquivalent(xs[i], b.items[i]);
      }
    case Obj(fs) =>
      var gs := b.fields;
      forall i | 0 <= i < |fs| ensures Matched(fs[i], gs) {
        var j := FieldOfSameForm(fs, gs, i);
        SameFormGivesEquivalent(fs[i].value, gs[j].value);
      }
      forall j | 0 <= j < |gs| ensures HasKey(fs, gs[j].key) {
        var i := FieldOfSameForm(gs, fs, j);
      }
    case _ =>
  }

  lemma FieldOfSameForm(fs: seq<Field>, gs: seq<Field>, i: nat) returns (j: nat)
    requires i < |fs| && DistinctKeys(fs) && DistinctKeys(gs)
    requires CollectFields(fs) == CollectFields(gs)
    ensures j < |gs| && CanonicalField(gs[j]) == CanonicalField(fs[i])
  {
    CollectSorts(fs);
    CollectSorts(gs);
    var x := CanonicalField(fs[i]);
    assert IsFormOf(x, fs);
    assert x in CollectFields(gs);
    j :| 0 <= j < |gs| && CanonicalField(gs[j]) == x;
  }

  /** Two values have one canonical form exactly when they are equal up to the
      order of object keys at every depth. */
  lemma CanonicalFormDecides(a: Value, b: Value)
    requires WellFormed(a) && WellFormed(b)
    ensures Canonicalize(a) == Canonicalize(b) <==> Equivalent(a, b)
  {
    if Equivalent(a, b) { EquivalentGivesSameForm(a, b); }
    if Canonicalize(a) == Canonicalize(b) { SameFormGivesEquivalent(a, b); }
  }

  // ----- preconditions -----

  datatype Precondition = Precondition(resource: string, expectedHash: string, message: string)

  /** SHA-256 of the JSON text, as an arbitrary function of the value. */
  type Digest = Value -> string

  function StableHash(digest: Digest, v: Value): string { digest(Canonicalize(v)) }

  /** `action_state_precondition`: the resource as the proposal saw it. */
  function StatePrecondition(digest: Digest, resource: string, seen: Value, message: string): Precondition {
    Precondition(resource, StableHash(digest, seen), message)
  }

  /** Whether precondition `p` holds of the current resources. */
  predicate HoldsNow(digest: Digest, current: map<string, Value>, p: Precondition) {
    p.resource in current && StableHash(digest, current[p.resource]) == p.expectedHash
  }

  /** `validate_action_preconditions`: the first failing precondition decides. */
  method ValidatePreconditions(digest: Digest, current: map<string, Value>, ps: seq<Precondition>)
    returns (failed: Option<nat>)
    ensures failed.None? <==> forall i :: 0 <= i < |ps| ==> HoldsNow(digest, current, ps[i])
    ensures failed.Some? ==> failed.value < |ps| && !HoldsNow(digest, current, ps[failed.value])
                             && forall i :: 0 <= i < failed.value ==> HoldsNow(digest, current, ps[i])
  {
    for i := 0 to |ps|
      invariant forall k :: 0 <= k < i ==> HoldsNow(digest, current, ps[k])
    {
      if ps[i].resource !in current { return Some(i); }
      if StableHash(digest, current[ps[i].resource]) != ps[i].expectedHash { return Some(i); }
    }
    failed := None;
  }

  /** With a collision-free digest, a precondition holds exactly when the named
      resource still has the value seen at proposal, up to key order. */
  lemma PreconditionMeansUnchanged(digest: Digest, current: map<string, Value>, resource: string, seen: Value,
                                   message: string)
    requires forall x, y :: digest(x) == digest(y) ==> x == y
    requires WellFormed(seen) && forall r :: r in current ==> WellFormed(current[r])
    ensures HoldsNow(digest, current, StatePrecondition(digest, resource, seen, message)) <==>
            resource in current && Equivalent(current[resource], seen)
  {
    if resource in current { CanonicalFormDecides(current[resource], seen); }
  }
}
