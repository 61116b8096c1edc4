/** Collections whose items are found, overwritten and deleted by id. */
module Items {
  import opened Options
  import opened Selections

  datatype Item = Item(id: string, body: string)

  predicate HasId(items: seq<Item>, id: string) {
    exists i :: 0 <= i < |items| && items[i].id == id
  }

  ghost predicate UniqueIds(items: seq<Item>) {
    forall i, j :: 0 <= i < j < |items| ==> items[i].id != items[j].id
  }

  function Ids(items: seq<Item>): seq<string> {
    if items == [] then [] else [items[0].id] + Ids(items[1..])
  }

  lemma HasIdTail(items: seq<Item>, id: string)
    requires items != []
    ensures HasId(items, id) <==> items[0].id == id || HasId(items[1..], id)
  {
    if HasId(items, id) {
      var i :| 0 <= i < |items| && items[i].id == id;
      if i > 0 { assert items[1..][i - 1].id == id; }
    }
    if HasId(items[1..], id) {
      var i :| 0 <= i < |items[1..]| && items[1..][i].id == id;
      assert items[i + 1].id == id;
    }
  }

  /** `iter().find(...)` */
  function Find(items: seq<Item>, id: string): (r: Option<Item>)
    ensures r.None? <==> !HasId(items, id)
    ensures r.Some? ==> r.value in items && r.value.id == id
  {
    if items == [] then None
    else if items[0].id == id then Some(items[0])
    else
      assert items == [items[0]] + items[1..];
      assert HasId(items, id) <==> HasId(items[1..], id) by { HasIdTail(items, id); }
      Find(items[1..], id)
  }

  /** `*slot = item` on the first item with that id. */
  function ReplaceFirst(items: seq<Item>, id: string, item: Item): (r: seq<Item>)
    ensures |r| == |items|
  {
    if items == [] then []
    else if items[0].id == id then [item] + items[1..]
    else [items[0]] + ReplaceFirst(items[1..], id, item)
  }

  /** `retain` of the other ids */
  function Without(items: seq<Item>, id: string): seq<Item> {
    if items == [] then []
    else (if items[0].id == id then [] else [items[0]]) + Without(items[1..], id)
  }

  /** With the first `i` items passed over, the slot at `i` is the one replaced. */
  lemma {:induction false} ReplaceFirstFrom(items: seq<Item>, i: nat, id: string, item: Item)
    requires i <= |items| && forall k :: 0 <= k < i ==> items[k].id != id
    requires i < |items| ==> items[i].id == id
    ensures ReplaceFirst(items, id, item) == if i < |items| then items[i := item] else items
  {
    if i > 0 {
      ReplaceFirstFrom(items[1..], i - 1, id, item);
      assert items == [items[0]] + items[1..];
    }
  }

  lemma {:induction false} ReplaceFirstAt(items: seq<Item>, id: string, item: Item, k: nat)
    requires k < |items| && UniqueIds(items)
    ensures ReplaceFirst(items, id, item)[k] == if items[k].id == id then item else items[k]
  {
    if items[0].id != id && k > 0 { ReplaceFirstAt(items[1..], id, item, k - 1); }
  }

  lemma {:induction false} AbsentUnchanged(items: seq<Item>, id: string, item: Item)
    requires !HasId(items, id)
    ensures ReplaceFirst(items, id, item) == items
  {
    if items != [] {
      HasIdTail(items, id);
      AbsentUnchanged(items[1..], id, item);
      assert items == [items[0]] + items[1..];
    }
  }

  lemma {:induction false} WithoutShrinks(items: seq<Item>, id: string)
    ensures |Without(items, id)| <= |items|
    ensures |Without(items, id)| < |items| <==> HasId(items, id)
  {
    if items != [] {
      HasIdTail(items, id);
      WithoutShrinks(items[1..], id);
    }
  }

  lemma {:induction false} WithoutAppend(items: seq<Item>, item: Item, id: string)
    ensures Without(items + [item], id) == Without(items, id) + if item.id == id then [] else [item]
  {
    var all, last := items + [item], if item.id == id then [] else [item];
    WithoutFirst(all, id);
    if items == [] {
      assert all[0] == item && all[1..] == [] && last + [] == [] + last;
    } else {
      WithoutAppend(items[1..], item, id);
      WithoutFirst(items, id);
      assert all[0] == items[0] && all[1..] == items[1..] + [item];
      Reassociate(if items[0].id == id then [] else [items[0]], Without(items[1..], id), last);
    }
  }

  lemma WithoutFirst(items: seq<Item>, id: string)
    requires items != []
    ensures Without(items, id) == (if items[0].id == id then [] else [items[0]]) + Without(items[1..], id)
  {
  }

  // ----- ids stay unique -----

  /** Appending keeps ids unique exactly when the id is new. */
  lemma AppendKeepsUnique(items: seq<Item>, item: Item)
    ensures UniqueIds(items + [item]) <==> UniqueIds(items) && !HasId(items, item.id)
    ensures HasId(items + [item], item.id)
  {
    var all := items + [item];
    assert all[|items|] == item && forall i :: 0 <= i < |items| ==> all[i] == items[i];
    if HasId(items, item.id) {
      var i :| 0 <= i < |items| && items[i].id == item.id;
      assert all[i].id == all[|items|].id;
    }
  }

  /** Overwriting an item keeps the ids unique exactly when the new one brings its old
      id or one that nobody else has. */
  lemma OverwriteKeepsUnique(items: seq<Item>, id: string, item: Item)
    requires UniqueIds(items) && HasId(items, id)
    ensures UniqueIds(ReplaceFirst(items, id, item)) <==> item.id == id || !HasId(items, item.id)
  {
    var r := ReplaceFirst(items, id, item);
    var at :| 0 <= at < |items| && items[at].id == id;
    forall k | 0 <= k < |items| ensures r[k] == if k == at then item else items[k] {
      ReplaceFirstAt(items, id, item, k);
    }
    if item.id != id && HasId(items, item.id) {
      var other :| 0 <= other < |items| && items[other].id == item.id;
      assert r[other].id == r[at].id && other != at;
    }
  }

  /** Only the items with the deleted id go. */
  lemma {:induction false} WithoutIds(items: seq<Item>, id: string, x: string)
    ensures HasId(Without(items, id), x) <==> HasId(items, x) && x != id
  {
    if items != [] {
      var rest := Without(items[1..], id);
      WithoutIds(items[1..], id, x);
      HasIdTail(items, x);
      if items[0].id != id {
        HasIdTail([items[0]] + rest, x);
        assert ([items[0]] + rest)[1..] == rest;
      } else {
        assert Without(items, id) == rest;
      }
    }
  }

  lemma {:induction false} WithoutUnique(items: seq<Item>, id: string)
    requires UniqueIds(items)
    ensures UniqueIds(Without(items, id))
  {
    if items != [] {
      WithoutUnique(items[1..], id);
      var rest := Without(items[1..], id);
      forall i | 0 <= i < |rest| ensures rest[i].id != items[0].id {
        WithoutIds(items[1..], id, rest[i].id);
        var k :| 0 <= k < |items[1..]| && items[1..][k].id == rest[i].id;
      }
    }
  }

  // ----- what the changes do -----

  /** The first item with that id, and nothing else, has become `item`. */
  ghost predicate Overwritten(before: seq<Item>, id: string, item: Item, after: seq<Item>) {
    && |after| == |before|
    && exists i ::
         && 0 <= i < |before| && before[i].id == id && (forall k :: 0 <= k < i ==> before[k].id != id)
         && after[i] == item && forall k :: 0 <= k < |before| && k != i ==> after[k] == before[k]
  }

  /** The items that a deletion leaves. */
  function Stays(id: string): Item -> Option<Item> {
    (item: Item) => if item.id == id then None else Some(item)
  }

  /** Every other item is still there, whole and in its old order, and nothing else. */
  ghost predicate Deleted(before: seq<Item>, id: string, after: seq<Item>) {
    Selects(Stays(id), before, after)
  }

  lemma FirstWithId(items: seq<Item>, id: string) returns (i: nat)
    requires HasId(items, id)
    ensures i < |items| && items[i].id == id && forall k :: 0 <= k < i ==> items[k].id != id
  {
    i := 0;
    while items[i].id != id
      invariant i < |items| && forall k :: 0 <= k < i ==> items[k].id != id
      decreases |items| - i
    {
      assert exists k :: 0 <= k < |items| && items[k].id == id;
      i := i + 1;
    }
  }

  /** `*slot = item` overwrites the first item with that id, and only that. */
  lemma ReplaceFirstExactly(items: seq<Item>, id: string, item: Item, after: seq<Item>)
    requires HasId(items, id)
    ensures after == ReplaceFirst(items, id, item) <==> Overwritten(items, id, item, after)
  {
    var i := FirstWithId(items, id);
    ReplaceFirstFrom(items, i, id, item);
    if Overwritten(items, id, item, after) {
      var j :| 0 <= j < |items| && items[j].id == id && (forall k :: 0 <= k < j ==> items[k].id != id)
               && after[j] == item && forall k :: 0 <= k < |items| && k != j ==> after[k] == items[k];
      assert i == j;
      assert after == items[i := item];
    }
  }

  lemma {:induction false} WithoutSelects(items: seq<Item>, id: string)
    ensures Deleted(items, id, Without(items, id))
  {
    if items == [] {
      SelectsNone(Stays(id));
    } else {
      WithoutSelects(items[1..], id);
      SelectsFront(Stays(id), items[0], items[1..], Without(items[1..], id));
      assert [items[0]] + items[1..] == items;
    }
  }

  /** `retain` keeps exactly the other items. */
  lemma WithoutExactly(items: seq<Item>, id: string, after: seq<Item>)
    ensures after == Without(items, id) <==> Deleted(items, id, after)
  {
    WithoutSelects(items, id);
    if Deleted(items, id, after) { SelectsOne(Stays(id), items, after, Without(items, id)); }
  }

  /** `push` */
  ghost predicate Appended(before: seq<Item>, id: string, body: string, after: seq<Item>) {
    && |after| == |before| + 1
    && (forall k :: 0 <= k < |before| ==> after[k] == before[k])
    && after[|before|].id == id && after[|before|].body == body
  }

  lemma AppendExactly(before: seq<Item>, item: Item, after: seq<Item>)
    ensures after == before + [item] <==> Appended(before, item.id, item.body, after)
  {
    if Appended(before, item.id, item.body, after) { assert after[|before|] == item; }
  }
}
