/** What a filter selects, said by positions: the reference that the recursive and the
    looping filters of the other modules are compared with. */
module Selections {
  import opened Options

  ghost predicate Increasing(at: seq<int>) {
    forall i, j :: 0 <= i < j < |at| ==> at[i] < at[j]
  }

  /** `ys` are the entries at the positions `at`, as `f` keeps them. */
  ghost predicate Keeps<A, B>(f: A -> Option<B>, xs: seq<A>, ys: seq<B>, at: seq<int>) {
    |at| == |ys| && forall k :: 0 <= k < |at| ==> 0 <= at[k] < |xs| && f(xs[at[k]]) == Some(ys[k])
  }

  /** Nothing is kept of any other entry. */
  ghost predicate Covers<A, B>(f: A -> Option<B>, xs: seq<A>, at: seq<int>) {
    forall i :: 0 <= i < |xs| && f(xs[i]).Some? ==> i in at
  }

  /** `ys` is what `f` keeps of `xs`, entry by entry, in order. */
  ghost predicate Selects<A, B>(f: A -> Option<B>, xs: seq<A>, ys: seq<B>) {
    exists at :: Increasing(at) && Keeps(f, xs, ys, at) && Covers(f, xs, at)
  }

  function First<A, B>(f: A -> Option<B>, x: A): seq<B> { if f(x).Some? then [f(x).value] else [] }

  function Shift(at: seq<int>, d: int): seq<int> {
    seq(|at|, k requires 0 <= k < |at| => at[k] + d)
  }

  lemma ShiftMember(at: seq<int>, d: int, i: int)
    requires i in at
    ensures i + d in Shift(at, d)
  {
    var k :| 0 <= k < |at| && at[k] == i;
    assert Shift(at, d)[k] == i + d;
  }

  lemma SelectsNone<A, B>(f: A -> Option<B>)
    ensures Selects(f, [], [])
  {
    var at: seq<int> := [];
    assert Increasing(at) && Keeps(f, [], [], at) && Covers(f, [], at);
  }

  /** The positions with one more entry in front. */
  function Behind(kept: bool, at: seq<int>): seq<int> { (if kept then [0] else []) + Shift(at, 1) }

  lemma FrontKeeps<A, B>(f: A -> Option<B>, x: A, xs: seq<A>, ys: seq<B>, at: seq<int>)
    requires Keeps(f, xs, ys, at)
    ensures Keeps(f, [x] + xs, First(f, x) + ys, Behind(f(x).Some?, at))
  {
    var more, all, out, n := Behind(f(x).Some?, at), [x] + xs, First(f, x) + ys, |First(f, x)|;
    forall k | 0 <= k < |more| ensures 0 <= more[k] < |all| && f(all[more[k]]) == Some(out[k]) {
      if k >= n {
        assert more[k] == at[k - n] + 1 && out[k] == ys[k - n];
        assert all[more[k]] == xs[at[k - n]];
      }
    }
  }

  lemma FrontCovers<A, B>(f: A -> Option<B>, x: A, xs: seq<A>, at: seq<int>)
    requires Covers(f, xs, at)
    ensures Covers(f, [x] + xs, Behind(f(x).Some?, at))
  {
    var more, all := Behind(f(x).Some?, at), [x] + xs;
    forall i | 0 <= i < |all| && f(all[i]).Some? ensures i in more {
      if i == 0 {
        assert more[0] == 0;
      } else {
        assert all[i] == xs[i - 1];
        ShiftMember(at, 1, i - 1);
      }
    }
  }

  lemma FrontIncreasing<A, B>(f: A -> Option<B>, kept: bool, xs: seq<A>, ys: seq<B>, at: seq<int>)
    requires Increasing(at) && Keeps(f, xs, ys, at)
    ensures Increasing(Behind(kept, at))
  {
    var more, n := Behind(kept, at), if kept then 1 else 0;
    assert forall k :: n <= k < |more| ==> more[k] == at[k - n] + 1 > 0;
  }

  /** One more entry in front. */
  lemma SelectsFront<A, B>(f: A -> Option<B>, x: A, xs: seq<A>, ys: seq<B>)
    requires Selects(f, xs, ys)
    ensures Selects(f, [x] + xs, First(f, x) + ys)
  {
    var at :| Increasing(at) && Keeps(f, xs, ys, at) && Covers(f, xs, at);
    FrontIncreasing(f, f(x).Some?, xs, ys, at);
    FrontKeeps(f, x, xs, ys, at);
    FrontCovers(f, x, xs, at);
  }

  lemma KeptFirst<A, B>(f: A -> Option<B>, xs: seq<A>, ys: seq<B>, at: seq<int>)
    requires xs != [] && Increasing(at) && Keeps(f, xs, ys, at) && Covers(f, xs, at)
    ensures f(xs[0]).Some? <==> at != [] && at[0] == 0
    ensures forall k :: 0 < k < |at| ==> at[k] > 0
  {
    if f(xs[0]).Some? {
      assert 0 in at;
      var k :| 0 <= k < |at| && at[k] == 0;
      assert at[0] <= at[k];
    }
    forall k | 0 < k < |at| ensures at[k] > 0 { assert at[0] < at[k]; }
  }

  lemma TailKeeps<A, B>(f: A -> Option<B>, xs: seq<A>, ys: seq<B>, at: seq<int>, n: nat)
    requires xs != [] && Keeps(f, xs, ys, at) && n <= |at|
    requires forall k :: n <= k < |at| ==> at[k] > 0
    ensures Keeps(f, xs[1..], ys[n..], Shift(at[n..], -1))
  {
    var less := Shift(at[n..], -1);
    forall k | 0 <= k < |less| ensures 0 <= less[k] < |xs[1..]| && f(xs[1..][less[k]]) == Some(ys[n..][k]) {
      assert less[k] == at[n + k] - 1;
    }
  }

  lemma TailCovers<A, B>(f: A -> Option<B>, xs: seq<A>, at: seq<int>, n: nat)
    requires xs != [] && Covers(f, xs, at) && n <= |at|
    requires forall k :: 0 <= k < n ==> at[k] == 0
    ensures Covers(f, xs[1..], Shift(at[n..], -1))
  {
    forall i | 0 <= i < |xs[1..]| && f(xs[1..][i]).Some? ensures i in Shift(at[n..], -1) {
      assert xs[1..][i] == xs[i + 1] && i + 1 in at;
      var k :| 0 <= k < |at| && at[k] == i + 1;
      assert at[n..][k - n] == i + 1;
      ShiftMember(at[n..], -1, i + 1);
    }
  }

  lemma TailIncreasing(at: seq<int>, n: nat)
    requires Increasing(at) && n <= |at|
    ensures Increasing(Shift(at[n..], -1))
  {
    var less := Shift(at[n..], -1);
    assert forall k :: 0 <= k < |less| ==> less[k] == at[n + k] - 1;
  }

  /** And one entry less. */
  lemma SelectsTail<A, B>(f: A -> Option<B>, xs: seq<A>, ys: seq<B>)
    requires xs != [] && Selects(f, xs, ys)
    ensures First(f, xs[0]) <= ys && Selects(f, xs[1..], ys[|First(f, xs[0])|..])
  {
    var at :| Increasing(at) && Keeps(f, xs, ys, at) && Covers(f, xs, at);
    KeptFirst(f, xs, ys, at);
    var n := |First(f, xs[0])|;
    TailIncreasing(at, n);
    TailKeeps(f, xs, ys, at, n);
    TailCovers(f, xs, at, n);
  }

  lemma SelectsSomething<A, B>(f: A -> Option<B>, xs: seq<A>, ys: seq<B>)
    requires ys != [] && Selects(f, xs, ys)
    ensures xs != []
  {
    var at :| Increasing(at) && Keeps(f, xs, ys, at) && Covers(f, xs, at);
    assert 0 <= at[0] < |xs|;
  }

  /** At most one list is selected. */
  lemma {:induction false} SelectsOne<A, B>(f: A -> Option<B>, xs: seq<A>, ys: seq<B>, zs: seq<B>)
    requires Selects(f, xs, ys) && Selects(f, xs, zs)
    ensures ys == zs
  {
    if xs == [] {
      if ys != [] { SelectsSomething(f, xs, ys); }
      if zs != [] { SelectsSomething(f, xs, zs); }
    } else {
      var first := First(f, xs[0]);
      SelectsTail(f, xs, ys);
      SelectsTail(f, xs, zs);
      SelectsOne(f, xs[1..], ys[|first|..], zs[|first|..]);
      assert ys == first + ys[|first|..] && zs == first + zs[|first|..];
    }
  }

  /** Only what the choice says of the entries matters. */
  lemma SelectsAlike<A, B>(f: A -> Option<B>, g: A -> Option<B>, xs: seq<A>, ys: seq<B>)
    requires Selects(f, xs, ys) && forall i :: 0 <= i < |xs| ==> f(xs[i]) == g(xs[i])
    ensures Selects(g, xs, ys)
  {
    var at :| Increasing(at) && Keeps(f, xs, ys, at) && Covers(f, xs, at);
    assert Keeps(g, xs, ys, at) && Covers(g, xs, at);
  }

  lemma LastKeeps<A, B>(f: A -> Option<B>, xs: seq<A>, ys: seq<B>, at: seq<int>, x: A)
    requires Keeps(f, xs, ys, at)
    ensures Keeps(f, xs + [x], ys + First(f, x), at + if f(x).Some? then [|xs|] else [])
  {
    var all, out, more := xs + [x], ys + First(f, x), at + if f(x).Some? then [|xs|] else [];
    forall k | 0 <= k < |more| ensures 0 <= more[k] < |all| && f(all[more[k]]) == Some(out[k]) {
      if k < |at| { assert more[k] == at[k] && all[at[k]] == xs[at[k]] && out[k] == ys[k]; }
    }
  }

  lemma LastCovers<A, B>(f: A -> Option<B>, xs: seq<A>, at: seq<int>, x: A)
    requires Covers(f, xs, at)
    ensures Covers(f, xs + [x], at + if f(x).Some? then [|xs|] else [])
  {
    var all := xs + [x];
    forall i | 0 <= i < |all| && f(all[i]).Some? ensures i in at + if f(x).Some? then [|xs|] else [] {
      if i < |xs| { assert all[i] == xs[i]; }
    }
  }

  lemma LastIncreasing(at: seq<int>, n: int)
    requires Increasing(at) && forall k :: 0 <= k < |at| ==> at[k] < n
    ensures Increasing(at + [n])
  {}

  /** One more entry behind. */
  lemma SelectsLast<A, B>(f: A -> Option<B>, xs: seq<A>, ys: seq<B>, x: A)
    requires Selects(f, xs, ys)
    ensures Selects(f, xs + [x], ys + First(f, x))
  {
    var at :| Increasing(at) && Keeps(f, xs, ys, at) && Covers(f, xs, at);
    var more := at + if f(x).Some? then [|xs|] else [];
    LastKeeps(f, xs, ys, at, x);
    LastCovers(f, xs, at, x);
    if f(x).Some? { LastIncreasing(at, |xs|); } else { assert more == at; }
  }

  function Indices(n: nat): seq<int> { seq(n, i => i) }

  lemma IndicesGrow(n: int)
    requires n >= 0
    ensures Indices(n + 1) == Indices(n) + [n]
  {}

  lemma AgreeBelow<B>(f: int -> Option<B>, g: int -> Option<B>, n: nat, i: nat)
    requires i < n && forall k :: 0 <= k < n ==> f(k) == g(k)
    ensures f(Indices(n)[i]) == g(Indices(n)[i])
  {
    assert Indices(n)[i] == i;
  }

  /** One more index: what `g` chooses of it stands behind what `f` chose so far. */
  lemma SelectsNextIndex<B>(f: int -> Option<B>, g: int -> Option<B>, n: int, ys: seq<B>)
    requires n >= 0 && Selects(f, Indices(n), ys) && forall k :: 0 <= k < n ==> f(k) == g(k)
    ensures Selects(g, Indices(n + 1), ys + First(g, n))
  {
    var xs := Indices(n);
    forall i: nat | i < |xs| ensures f(xs[i]) == g(xs[i]) { AgreeBelow(f, g, n, i); }
    SelectsAlike(f, g, xs, ys);
    SelectsLast(g, xs, ys, n);
    IndicesGrow(n);
  }

  /** `at` are the places where the entries of `out` first appear in `all`. */
  ghost predicate FirstPlaces<T>(all: seq<T>, out: seq<T>, at: seq<int>) {
    && |at| == |out| && Increasing(at)
    && forall k :: 0 <= k < |at| ==>
         0 <= at[k] < |all| && all[at[k]] == out[k] && forall j :: 0 <= j < at[k] ==> all[j] != out[k]
  }

  /** The entries of `out`, each once, in order of first appearance in `all`. */
  ghost predicate InOrderOfAppearance<T>(all: seq<T>, out: seq<T>) {
    exists at :: FirstPlaces(all, out, at)
  }

  lemma NothingAppears<T>(all: seq<T>)
    ensures InOrderOfAppearance(all, [])
  {
    assert FirstPlaces(all, [], []);
  }

  lemma PlacesStay<T>(all: seq<T>, out: seq<T>, at: seq<int>, x: T)
    requires FirstPlaces(all, out, at)
    ensures FirstPlaces(all + [x], out, at)
  {
    var more := all + [x];
    forall k | 0 <= k < |at|
      ensures 0 <= at[k] < |more| && more[at[k]] == out[k] && forall j :: 0 <= j < at[k] ==> more[j] != out[k]
    {
      assert more[at[k]] == all[at[k]];
      forall j | 0 <= j < at[k] ensures more[j] != out[k] { assert more[j] == all[j]; }
    }
  }

  /** One more entry changes nothing that has appeared. */
  lemma AppearsStill<T>(all: seq<T>, out: seq<T>, x: T)
    requires InOrderOfAppearance(all, out)
    ensures InOrderOfAppearance(all + [x], out)
  {
    var at :| FirstPlaces(all, out, at);
    PlacesStay(all, out, at, x);
  }

  /** And if it is new it may come last. */
  lemma AppearsLast<T>(all: seq<T>, out: seq<T>, x: T)
    requires InOrderOfAppearance(all, out) && x !in all
    ensures InOrderOfAppearance(all + [x], out + [x])
  {
    var at :| FirstPlaces(all, out, at);
    PlacesStay(all, out, at, x);
    var more, place := all + [x], at + [|all|];
    LastIncreasing(at, |all|);
    forall k | 0 <= k < |place|
      ensures 0 <= place[k] < |more| && more[place[k]] == (out + [x])[k]
      ensures forall j :: 0 <= j < place[k] ==> more[j] != (out + [x])[k]
    {
      if k < |at| { assert place[k] == at[k] && (out + [x])[k] == out[k]; }
      else { assert forall j :: 0 <= j < |all| ==> more[j] == all[j]; }
    }
    assert FirstPlaces(more, out + [x], place);
  }
}
