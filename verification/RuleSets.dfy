/** Rule collections (src/control_plane/policy.rs): create, update and delete by id,
    and reordering by a list of ids. */
module RuleSets {
  import opened Options
  import opened Items
  import opened Selections
  import opened Sorting

  type Rule = Item

  datatype Operation =
    | Create(rule: Rule, freshId: string) | Update(id: string, rule: Rule) | Delete(id: string)
    | Reorder(ids: seq<string>)

  /** The collection after one request; the handlers and the assistant agree on it. */
  function Perform(rules: seq<Rule>, op: Operation): seq<Rule> {
    match op
    case Create(rule, freshId) => rules + [rule.(id := freshId)]
    case Update(id, rule) => ReplaceFirst(rules, id, rule.(id := id))
    case Delete(id) => Without(rules, id)
    case Reorder(ids) => Reordered(rules, ids)
  }

  /** What each of the first three requests promises, bodies included. */
  ghost predicate Effect(before: seq<Rule>, op: Operation, after: seq<Rule>)
    requires !op.Reorder?
  {
    match op
    case Create(rule, freshId) => Appended(before, freshId, rule.body, after)
    case Update(id, rule) =>
      if HasId(before, id) then Overwritten(before, id, Item(id, rule.body), after) else after == before
    case Delete(id) => Deleted(before, id, after)
  }

  lemma OperationHasItsEffect(rules: seq<Rule>, op: Operation, after: seq<Rule>)
    requires !op.Reorder?
    ensures after == Perform(rules, op) <==> Effect(rules, op, after)
  {
    match op
    case Create(rule, freshId) => AppendExactly(rules, rule.(id := freshId), after);
    case Update(id, rule) =>
      if HasId(rules, id) { ReplaceFirstExactly(rules, id, rule.(id := id), after); }
      else { AbsentUnchanged(rules, id, rule.(id := id)); }
    case Delete(id) => WithoutExactly(rules, id, after);
  }

  class RuleStore {
    var rules: seq<Rule>

    /** The id drawn leads to the rule and nothing else moves; ids stay unique exactly
        when the id was new. */
    method CreateRule(rule: Rule, freshId: string)
      modifies this
      ensures HasId(rules, freshId) && Without(rules, freshId) == Without(old(rules), freshId)
      ensures UniqueIds(rules) <==> UniqueIds(old(rules)) && !HasId(old(rules), freshId)
      ensures Effect(old(rules), Create(rule, freshId), rules)
      ensures rules == Perform(old(rules), Create(rule, freshId))
    {
      AppendKeepsUnique(rules, rule.(id := freshId));
      WithoutAppend(rules, rule.(id := freshId), freshId);
      rules := rules + [rule.(id := freshId)];
      OperationHasItsEffect(old(rules), Create(rule, freshId), rules);
    }

    method UpdateRule(id: string, rule: Rule) returns (found: bool)
      modifies this
      ensures found <==> HasId(old(rules), id)
      ensures Effect(old(rules), Update(id, rule), rules)
      ensures rules == Perform(old(rules), Update(id, rule))
    {
      var i := 0;
      while i < |rules| && rules[i].id != id
        invariant 0 <= i <= |rules|
        invariant forall k :: 0 <= k < i ==> rules[k].id != id
      {
        i := i + 1;
      }
      ReplaceFirstFrom(rules, i, id, rule.(id := id));
      found := i < |rules|;
      if found {
        rules := rules[i := rule.(id := id)];
      }
      OperationHasItsEffect(old(rules), Update(id, rule), rules);
    }

    method DeleteRule(id: string) returns (found: bool)
      modifies this
      ensures Effect(old(rules), Delete(id), rules)
      ensures rules == Perform(old(rules), Delete(id))
      ensures found <==> HasId(old(rules), id)
      ensures found <==> |rules| < |old(rules)|
    {
      var before := |rules|;
      rules := Without(rules, id);
      WithoutShrinks(old(rules), id);
      found := |rules| != before;
      OperationHasItsEffect(old(rules), Delete(id), rules);
    }

    /** `reorder_rule_sets` */
    method Reorder(ids: seq<string>)
      modifies this
      ensures rules == Reordered(old(rules), ids)
    {
      var reordered := Picked(rules, ids);
      for i := 0 to |rules|
        invariant rules == old(rules)
        invariant reordered == Picked(rules, ids) + Unlisted(rules[..i], ids)
      {
        UnlistedAppend(rules[..i], rules[i], ids);
        assert rules[..i + 1] == rules[..i] + [rules[i]];
        if rules[i].id !in ids { reordered := reordered + [rules[i]]; }
      }
      assert rules[..|rules|] == rules;
      rules := reordered;
    }
  }

  // ----- ids stay unique -----

  /** What a request must bring for the ids to stay unique. */
  ghost predicate Safe(rules: seq<Rule>, op: Operation) {
    match op
    case Create(_, freshId) => !HasId(rules, freshId)
    case Reorder(ids) => NoKnownRepeat(rules, ids)
    case _ => true
  }

  ghost predicate SafeRun(rules: seq<Rule>, ops: seq<Operation>)
    decreases |ops|
  {
    ops == [] || (Safe(rules, ops[0]) && SafeRun(Perform(rules, ops[0]), ops[1..]))
  }

  /** Ids are unique now and after every request of the run. */
  ghost predicate AlwaysUnique(rules: seq<Rule>, ops: seq<Operation>)
    decreases |ops|
  {
    UniqueIds(rules) && (ops == [] || AlwaysUnique(Perform(rules, ops[0]), ops[1..]))
  }

  /** A request keeps ids unique exactly when it is safe. */
  lemma OperationKeepsUnique(rules: seq<Rule>, op: Operation)
    requires UniqueIds(rules)
    ensures UniqueIds(Perform(rules, op)) <==> Safe(rules, op)
  {
    match op
    case Create(rule, freshId) => AppendKeepsUnique(rules, rule.(id := freshId));
    case Update(id, rule) =>
      if HasId(rules, id) { OverwriteKeepsUnique(rules, id, rule.(id := id)); }
      else { AbsentUnchanged(rules, id, rule.(id := id)); }
    case Delete(id) => WithoutUnique(rules, id);
    case Reorder(ids) => ReorderKeepsUnique(rules, ids);
  }

  /** Over a whole run of creates, updates, deletes and reorderings, ids are unique at
      every point exactly when every request is safe. */
  lemma {:induction false} RunKeepsUnique(rules: seq<Rule>, ops: seq<Operation>)
    requires UniqueIds(rules)
    ensures AlwaysUnique(rules, ops) <==> SafeRun(rules, ops)
    decreases |ops|
  {
    if ops != [] {
      OperationKeepsUnique(rules, ops[0]);
      if Safe(rules, ops[0]) { RunKeepsUnique(Perform(rules, ops[0]), ops[1..]); }
    }
  }

  // ----- reordering -----

  /** The requested rules that exist, in request order. */
  function Picked(rules: seq<Rule>, ids: seq<string>): seq<Rule> {
    if ids == [] then []
    else (match Find(rules, ids[0]) case None => [] case Some(r) => [r]) + Picked(rules, ids[1..])
  }

  /** The rules nobody asked for, in their old order. */
  function Unlisted(rules: seq<Rule>, ids: seq<string>): seq<Rule> {
    if rules == [] then []
    else (if rules[0].id in ids then [] else [rules[0]]) + Unlisted(rules[1..], ids)
  }

  function Reordered(rules: seq<Rule>, ids: seq<string>): seq<Rule> {
    Picked(rules, ids) + Unlisted(rules, ids)
  }

  lemma {:induction false} UnlistedAppend(rules: seq<Rule>, r: Rule, ids: seq<string>)
    ensures Unlisted(rules + [r], ids) == Unlisted(rules, ids) + if r.id in ids then [] else [r]
  {
    if rules == [] {
      assert rules + [r] == [r];
    } else {
      UnlistedAppend(rules[1..], r, ids);
      assert (rules + [r])[1..] == rules[1..] + [r];
    }
  }

  /** No id that names a rule is requested twice. */
  ghost predicate NoKnownRepeat(rules: seq<Rule>, ids: seq<string>) {
    forall i, j :: 0 <= i < j < |ids| && ids[i] == ids[j] ==> !HasId(rules, ids[i])
  }

  ghost predicate SameRules(a: seq<Rule>, b: seq<Rule>) { multiset(a) == multiset(b) }

  /** How often an id is requested. */
  ghost function Requests(ids: seq<string>, id: string): nat {
    if ids == [] then 0 else (if ids[0] == id then 1 else 0) + Requests(ids[1..], id)
  }

  lemma {:induction false} RequestsMember(ids: seq<string>, id: string)
    ensures Requests(ids, id) == 0 <==> id !in ids
  {
    if ids != [] {
      RequestsMember(ids[1..], id);
      assert ids == [ids[0]] + ids[1..];
    }
  }

  lemma {:induction false} RequestsOnce(ids: seq<string>, id: string)
    ensures Requests(ids, id) <= 1 <==> forall i, j :: 0 <= i < j < |ids| && ids[i] == id ==> ids[j] != id
  {
    if ids != [] {
      RequestsOnce(ids[1..], id);
      RequestsMember(ids[1..], id);
      var rest := ids[1..];
      if Requests(ids, id) <= 1 {
        forall i, j | 0 <= i < j < |ids| && ids[i] == id ensures ids[j] != id {
          if i > 0 { assert rest[i - 1] == id && rest[j - 1] == ids[j]; }
          else { assert rest[j - 1] == ids[j] && rest[j - 1] in rest; }
        }
      } else if ids[0] == id {
        var j :| 0 <= j < |rest| && rest[j] == id;
        assert ids[0] == id && ids[j + 1] == id;
      } else {
        var i, j :| 0 <= i < j < |rest| && rest[i] == id && rest[j] == id;
        assert ids[i + 1] == id && ids[j + 1] == id;
      }
    }
  }

  lemma FindUnique(rules: seq<Rule>, r: Rule, id: string)
    requires UniqueIds(rules) && r in rules
    ensures Find(rules, id) == Some(r) <==> id == r.id
  {
    if id == r.id {
      var k :| 0 <= k < |rules| && rules[k] == r;
      assert HasId(rules, id);
      var f := Find(rules, id).value;
      var m :| 0 <= m < |rules| && rules[m] == f;
    }
  }

  lemma {:induction false} PickedCount(rules: seq<Rule>, ids: seq<string>, r: Rule)
    requires UniqueIds(rules)
    ensures multiset(Picked(rules, ids))[r] == if r in rules then Requests(ids, r.id) else 0
  {
    if ids != [] {
      PickedCount(rules, ids[1..], r);
      if r in rules { FindUnique(rules, r, ids[0]); }
    }
  }

  lemma {:induction false} UnlistedCount(rules: seq<Rule>, ids: seq<string>, r: Rule)
    ensures multiset(Unlisted(rules, ids))[r] == if r.id in ids then 0 else multiset(rules)[r]
  {
    if rules != [] {
      UnlistedCount(rules[1..], ids, r);
      assert rules == [rules[0]] + rules[1..];
    }
  }

  lemma {:induction false} CountUnique(rules: seq<Rule>, r: Rule)
    requires UniqueIds(rules)
    ensures multiset(rules)[r] == if r in rules then 1 else 0
  {
    if rules != [] {
      CountUnique(rules[1..], r);
      assert rules == [rules[0]] + rules[1..];
    }
  }

  lemma ReorderedCount(rules: seq<Rule>, ids: seq<string>, r: Rule)
    requires UniqueIds(rules)
    ensures multiset(Reordered(rules, ids))[r] ==
            if r !in rules then 0 else if r.id in ids then Requests(ids, r.id) else 1
  {
    PickedCount(rules, ids, r);
    UnlistedCount(rules, ids, r);
    CountUnique(rules, r);
    RequestsMember(ids, r.id);
  }

  /** Reordering is a permutation exactly when no known id is requested twice. */
  lemma ReorderIsPermutation(rules: seq<Rule>, ids: seq<string>)
    requires UniqueIds(rules)
    ensures SameRules(Reordered(rules, ids), rules) <==> NoKnownRepeat(rules, ids)
  {
    if NoKnownRepeat(rules, ids) {
      forall r ensures multiset(Reordered(rules, ids))[r] == multiset(rules)[r] {
        ReorderedCount(rules, ids, r);
        CountUnique(rules, r);
        RequestsOnce(ids, r.id);
        RequestsMember(ids, r.id);
        if r in rules {
          var k :| 0 <= k < |rules| && rules[k] == r;
          assert HasId(rules, r.id);
        }
      }
    } else {
      var i, j :| 0 <= i < j < |ids| && ids[i] == ids[j] && HasId(rules, ids[i]);
      var r := Find(rules, ids[i]).value;
      ReorderedCount(rules, ids, r);
      CountUnique(rules, r);
      RequestsOnce(ids, r.id);
      RequestsMember(ids, r.id);
      assert multiset(Reordered(rules, ids))[r] != multiset(rules)[r];
    }
  }

  lemma PermutedUnique(a: seq<Rule>, b: seq<Rule>)
    requires UniqueIds(a) && SameRules(b, a)
    ensures UniqueIds(b)
  {
    forall i, j | 0 <= i < j < |b| ensures b[i].id != b[j].id {
      assert b[i] in multiset(a) && b[j] in multiset(a);
      var k :| 0 <= k < |a| && a[k] == b[i];
      var m :| 0 <= m < |a| && a[m] == b[j];
      CountUnique(a, b[i]);
      if b[i] == b[j] { Twice(b, i, j); }
    }
  }

  /** Reordering keeps ids unique exactly when no known id is requested twice. */
  lemma ReorderKeepsUnique(rules: seq<Rule>, ids: seq<string>)
    requires UniqueIds(rules)
    ensures UniqueIds(Reordered(rules, ids)) <==> NoKnownRepeat(rules, ids)
  {
    if NoKnownRepeat(rules, ids) {
      ReorderIsPermutation(rules, ids);
      PermutedUnique(rules, Reordered(rules, ids));
    } else {
      var i, j :| 0 <= i < j < |ids| && ids[i] == ids[j] && HasId(rules, ids[i]);
      var r := Find(rules, ids[i]).value;
      ReorderedCount(rules, ids, r);
      RequestsOnce(ids, r.id);
      RequestsMember(ids, r.id);
      if UniqueIds(Reordered(rules, ids)) { CountUnique(Reordered(rules, ids), r); }
    }
  }

  /** The known requested ids come first, in request order; the rest keep theirs. */
  lemma {:induction false} PickedInRequestOrder(rules: seq<Rule>, ids: seq<string>)
    ensures Ids(Picked(rules, ids)) == Known(rules, ids)
    ensures Picked(rules, ids) <= Reordered(rules, ids)
  {
    if ids != [] {
      PickedInRequestOrder(rules, ids[1..]);
      var rest := Picked(rules, ids[1..]);
      match Find(rules, ids[0]) {
        case None => assert [] + rest == rest;
        case Some(r) => assert ([r] + rest)[1..] == rest;
      }
    }
  }

  function Known(rules: seq<Rule>, ids: seq<string>): seq<string> {
    if ids == [] then [] else (if HasId(rules, ids[0]) then [ids[0]] else []) + Known(rules, ids[1..])
  }

  /** Rules that were not requested come last and keep their relative order. */
  lemma {:induction false} UnlistedKeepsOrder(rules: seq<Rule>, ids: seq<string>, a: Rule, b: Rule, i: nat, j: nat)
    returns (m: nat, n: nat)
    requires i < j < |rules| && rules[i] == a && rules[j] == b && a.id !in ids && b.id !in ids
    ensures m < n < |Unlisted(rules, ids)| && Unlisted(rules, ids)[m] == a && Unlisted(rules, ids)[n] == b
  {
    var rest := Unlisted(rules[1..], ids);
    if i > 0 {
      m, n := UnlistedKeepsOrder(rules[1..], ids, a, b, i - 1, j - 1);
      if rules[0].id !in ids { m, n := m + 1, n + 1; }
    } else {
      UnlistedCount(rules[1..], ids, b);
      assert b == rules[1..][j - 1];
      assert b in multiset(rest);
      n :| 0 <= n < |rest| && rest[n] == b;
      m, n := 0, n + 1;
    }
  }

  // ----- reordering, item by item -----

  function FoundIn(rules: seq<Rule>): string -> Option<Rule> { (id: string) => Find(rules, id) }

  function NotAsked(ids: seq<string>): Rule -> Option<Rule> { (r: Rule) => if r.id in ids then None else Some(r) }

  lemma {:induction false} FindsFirst(rules: seq<Rule>, id: string)
    ensures Find(rules, id).Some? ==>
              exists i :: 0 <= i < |rules| && rules[i] == Find(rules, id).value && rules[i].id == id
                          && forall k :: 0 <= k < i ==> rules[k].id != id
  {
    if rules != [] {
      if rules[0].id == id {
        assert rules[0] == Find(rules, id).value;
      } else if Find(rules, id).Some? {
        var rest := rules[1..];
        HasIdTail(rules, id);
        FindsFirst(rest, id);
        var i :| 0 <= i < |rest| && rest[i] == Find(rest, id).value && rest[i].id == id
                 && forall k :: 0 <= k < i ==> rest[k].id != id;
        assert rules[i + 1] == rest[i];
        forall k | 0 <= k < i + 1 ensures rules[k].id != id { if k > 0 { assert rules[k] == rest[k - 1]; } }
      }
    }
  }

  lemma {:induction false} PickedSelected(rules: seq<Rule>, ids: seq<string>)
    ensures Selects(FoundIn(rules), ids, Picked(rules, ids))
  {
    if ids == [] {
      SelectsNone(FoundIn(rules));
    } else {
      PickedSelected(rules, ids[1..]);
      SelectsFront(FoundIn(rules), ids[0], ids[1..], Picked(rules, ids[1..]));
      assert [ids[0]] + ids[1..] == ids;
    }
  }

  lemma {:induction false} UnlistedSelected(rules: seq<Rule>, ids: seq<string>)
    ensures Selects(NotAsked(ids), rules, Unlisted(rules, ids))
  {
    if rules == [] {
      SelectsNone(NotAsked(ids));
    } else {
      UnlistedSelected(rules[1..], ids);
      SelectsFront(NotAsked(ids), rules[0], rules[1..], Unlisted(rules[1..], ids));
      assert [rules[0]] + rules[1..] == rules;
    }
  }

  /** A reordering is the requested rules that exist, in request order, and behind them
      those nobody asked for, in their old order: whole, and nothing else. */
  lemma ReorderExactly(rules: seq<Rule>, ids: seq<string>, after: seq<Rule>)
    ensures after == Perform(rules, Reorder(ids)) <==>
            exists front, back :: after == front + back && Selects(FoundIn(rules), ids, front)
                                  && Selects(NotAsked(ids), rules, back)
  {
    PickedSelected(rules, ids);
    UnlistedSelected(rules, ids);
    forall front, back | Selects(FoundIn(rules), ids, front) && Selects(NotAsked(ids), rules, back)
      ensures front == Picked(rules, ids) && back == Unlisted(rules, ids)
    {
      SelectsOne(FoundIn(rules), ids, front, Picked(rules, ids));
      SelectsOne(NotAsked(ids), rules, back, Unlisted(rules, ids));
    }
  }
}
