/** The confirmation protocol for assistant actions
    (src/control_plane/assistant.rs): a bounded table of one-shot actions, each
    with its own token and expiry. Instants are milliseconds. */
module Confirmation {
  import Json

  const TTL := 600_000
  const MAX_PENDING := 50

  type Token = seq<bv8>

  datatype Action = Action(verb: string, endpoint: string, summary: string, payload: Json.Value)
  datatype Pending = Pending(action: Action, token: Token, expires: int)
  type Table = map<string, Pending>

  /** A request as it is served under the write lock. `now` is the instant the
      prune reads; `created` the earlier instant at which a proposal was stamped;
      `victim` the key a full table happens to list first. */
  datatype Event =
    | Register(id: string, token: Token, action: Action, created: int, now: int, victim: string)
    | Execute(id: string, token: Token, now: int)
    | Cancel(id: string, token: Token, now: int)

  datatype Outcome = Registered | NotFound | Forbidden | Ran(action: Action) | Cancelled

  // ----- token comparison -----

  function FoldDiff(diff: bv8, left: Token, right: Token): bv8
    decreases left
  {
    if left == [] || right == [] then diff
    else FoldDiff(diff | (left[0] ^ right[0]), left[1..], right[1..])
  }

  function ConstantTimeEq(left: Token, right: Token): bool {
    |left| == |right| && FoldDiff(0, left, right) == 0
  }

  lemma NoDifference(diff: bv8, a: bv8, b: bv8)
    ensures (diff | (a ^ b)) == 0 <==> diff == 0 && a == b
  {}

  lemma SameTokens(left: Token, right: Token)
    requires left != [] && right != []
    ensures left == right <==> left[0] == right[0] && left[1..] == right[1..]
  {
    assert left == [left[0]] + left[1..] && right == [right[0]] + right[1..];
  }

  lemma {:induction false} FoldDiffZero(diff: bv8, left: Token, right: Token)
    requires |left| == |right|
    ensures FoldDiff(diff, left, right) == 0 <==> diff == 0 && left == right
    decreases left
  {
    if left != [] {
      NoDifference(diff, left[0], right[0]);
      FoldDiffZero(diff | (left[0] ^ right[0]), left[1..], right[1..]);
      SameTokens(left, right);
    }
  }

  /** The XOR/OR fold is exactly byte equality. */
  lemma ConstantTimeEqIsEquality(left: Token, right: Token)
    ensures ConstantTimeEq(left, right) <==> left == right
  {
    if |left| == |right| { FoldDiffZero(0, left, right); }
  }

  // ----- the table -----

  function Prune(m: Table, now: int): Table {
    map id | id in m && m[id].expires > now :: m[id]
  }

  function Evict(m: Table, victim: string): Table {
    if |m| >= MAX_PENDING then m - {victim} else m
  }

  /** What one request does to the table. The handlers compare tokens with the
      constant-time fold; here tokens are simply equal or not. */
  function Serve(m: Table, e: Event): (Table, Outcome) {
    var live := Prune(m, e.now);
    match e
    case Register(id, token, action, created, _, victim) =>
      (Evict(live, victim)[id := Pending(action, token, created + TTL)], Registered)
    case Execute(id, token, _) =>
      if id !in live then (live, NotFound)
      else if live[id].token != token then (live, Forbidden)
      else (live - {id}, Ran(live[id].action))
    case Cancel(id, token, _) =>
      if id !in live then (live, NotFound)
      else if live[id].token != token then (live, Forbidden)
      else (live - {id}, Cancelled)
  }

  predicate Unexpired(m: Table, id: string, now: int) { id in m && now < m[id].expires }

  /** Besides `gone`, exactly the unexpired entries of `before` are left, as they were. */
  ghost predicate LeavesBut(before: Table, now: int, gone: set<string>, after: Table) {
    && (forall id :: id in after <==> Unexpired(before, id, now) && id !in gone)
    && (forall id :: id in after ==> after[id] == before[id])
  }

  /** What a registration must push out. */
  function Overflow(m: Table, now: int, victim: string): set<string> {
    if |Prune(m, now)| >= MAX_PENDING then {victim} else {}
  }

  lemma RegistrationLeaves(m: Table, now: int, victim: string, id: string, p: Pending)
    ensures LeavesBut(m, now, {id} + Overflow(m, now, victim), Evict(Prune(m, now), victim)[id := p] - {id})
  {}

  /** The shared state and its handlers. */
  class AssistantState {
    var pending: Table

    constructor ()
      ensures pending == map[]
    {
      pending := map[];
    }

    /** Exactly the unexpired entries stay, as they were; so a later request finds the
        same table whether or not an earlier one has pruned. */
    method PruneExpired(now: int)
      modifies this
      ensures forall id :: id in pending <==> id in old(pending) && now < old(pending)[id].expires
      ensures forall id :: id in pending ==> pending[id] == old(pending)[id]
      ensures forall later :: later >= now ==> Prune(pending, later) == Prune(old(pending), later)
      ensures pending == Prune(old(pending), now)
    {
      pending := map id | id in pending && pending[id].expires > now :: pending[id];
    }

    /** `register_pending_action`; a full table loses an arbitrary entry. */
    method RegisterPendingAction(id: string, token: Token, action: Action, created: int, now: int)
      returns (victim: string)
      modifies this
      ensures |Prune(old(pending), now)| >= MAX_PENDING ==> victim in Prune(old(pending), now)
      ensures id in pending && pending[id] == Pending(action, token, created + TTL)
      ensures LeavesBut(old(pending), now, {id} + Overflow(old(pending), now, victim), pending - {id})
      ensures pending == Serve(old(pending), Register(id, token, action, created, now, victim)).0
    {
      PruneExpired(now);
      victim := "";
      if |pending| >= MAX_PENDING {
        assert pending != map[];
        victim :| victim in pending;
        pending := pending - {victim};
      }
      pending := pending[id := Pending(action, token, created + TTL)];
      RegistrationLeaves(old(pending), now, victim, id, Pending(action, token, created + TTL));
    }

    /** The locked part of `execute_assistant_action`: it claims the action. */
    method ExecuteAction(id: string, token: Token, now: int) returns (outcome: Outcome)
      modifies this
      ensures outcome.NotFound? <==> !Unexpired(old(pending), id, now)
      ensures outcome.Forbidden? <==> Unexpired(old(pending), id, now) && old(pending)[id].token != token
      ensures outcome.Ran? <==> Unexpired(old(pending), id, now) && old(pending)[id].token == token
      ensures outcome.Ran? ==> outcome.action == old(pending)[id].action
      ensures LeavesBut(old(pending), now, if outcome.Ran? then {id} else {}, pending)
      ensures (pending, outcome) == Serve(old(pending), Execute(id, token, now))
    {
      PruneExpired(now);
      if id !in pending { return NotFound; }
      var claimed := pending[id];
      ConstantTimeEqIsEquality(claimed.token, token);
      if !ConstantTimeEq(claimed.token, token) { return Forbidden; }
      pending := pending - {id};
      outcome := Ran(claimed.action);
    }

    method CancelAction(id: string, token: Token, now: int) returns (outcome: Outcome)
      modifies this
      ensures outcome.NotFound? <==> !Unexpired(old(pending), id, now)
      ensures outcome.Forbidden? <==> Unexpired(old(pending), id, now) && old(pending)[id].token != token
      ensures outcome.Cancelled? <==> Unexpired(old(pending), id, now) && old(pending)[id].token == token
      ensures LeavesBut(old(pending), now, if outcome.Cancelled? then {id} else {}, pending)
      ensures (pending, outcome) == Serve(old(pending), Cancel(id, token, now))
    {
      PruneExpired(now);
      if id !in pending { return NotFound; }
      ConstantTimeEqIsEquality(pending[id].token, token);
      if !ConstantTimeEq(pending[id].token, token) { return Forbidden; }
      pending := pending - {id};
      outcome := Cancelled;
    }
  }

  // ----- runs -----

  /** The table before event `i`, from an empty table. */
  function Before(events: seq<Event>, i: nat): Table
    requires i <= |events|
  {
    if i == 0 then map[] else Serve(Before(events, i - 1), events[i - 1]).0
  }

  function OutcomeAt(events: seq<Event>, i: nat): Outcome
    requires i < |events|
  {
    Serve(Before(events, i), events[i]).1
  }

  /** The table that event `i` finds once expired entries are gone. */
  function Found(events: seq<Event>, i: nat): Table
    requires i < |events|
  {
    Prune(Before(events, i), events[i].now)
  }

  predicate Full(events: seq<Event>, i: nat)
    requires i < |events|
  {
    events[i].Register? && |Found(events, i)| >= MAX_PENDING
  }

  /** Time never runs backwards, ids are fresh, and a full table evicts one of
      its own entries. */
  ghost predicate ValidRun(events: seq<Event>) {
    && (forall i, j :: 0 <= i < j < |events| ==> events[i].now <= events[j].now)
    && (forall i :: 0 <= i < |events| && events[i].Register? ==> events[i].created <= events[i].now)
    && FreshIds(events)
    && EvictsOwnEntries(events)
  }

  ghost predicate FreshIds(events: seq<Event>) {
    forall i, j :: 0 <= i < j < |events| && events[i].Register? && events[j].Register? ==>
      events[i].id != events[j].id
  }

  ghost predicate EvictsOwnEntries(events: seq<Event>) {
    forall i {:trigger Full(events, i)} ::
      0 <= i < |events| && Full(events, i) ==> events[i].victim in Found(events, i)
  }

  predicate Consumed(events: seq<Event>, k: nat, id: string)
    requires k < |events|
  {
    events[k].id == id && (OutcomeAt(events, k).Ran? || OutcomeAt(events, k).Cancelled?)
  }

  predicate Evicted(events: seq<Event>, k: nat, id: string)
    requires k < |events|
  {
    Full(events, k) && events[k].victim == id
  }

  /** Registration `j` was not expired, consumed or evicted at event `k`. */
  predicate Survives(events: seq<Event>, j: nat, k: nat)
    requires j < k < |events| && events[j].Register?
  {
    events[k].now < events[j].created + TTL && !Consumed(events, k, events[j].id) && !Evicted(events, k, events[j].id)
  }

  ghost predicate Alive(events: seq<Event>, j: nat, i: nat)
    requires j < i <= |events|
  {
    events[j].Register? && forall k :: j < k < i ==> Survives(events, j, k)
  }

  function PendingOf(e: Event): Pending
    requires e.Register?
  {
    Pending(e.action, e.token, e.created + TTL)
  }

  /** Serving one event keeps the table within its bound. */
  lemma ServeKeepsBound(m: Table, e: Event)
    requires |m| <= MAX_PENDING
    requires e.Register? && |Prune(m, e.now)| >= MAX_PENDING ==> e.victim in Prune(m, e.now)
    ensures |Serve(m, e).0| <= MAX_PENDING
  {
    var live := Prune(m, e.now);
    Smaller(live, m);
    if e.Register? {
      if |live| >= MAX_PENDING { RemoveOne(live, e.victim); }
      AddOne(Evict(live, e.victim), e.id, PendingOf(e));
    } else {
      Smaller(live - {e.id}, live);
    }
  }

  lemma EventKeepsBound(events: seq<Event>, n: nat)
    requires EvictsOwnEntries(events) && n < |events| && |Before(events, n)| <= MAX_PENDING
    ensures |Before(events, n + 1)| <= MAX_PENDING
  {
    assert Full(events, n) ==> events[n].victim in Found(events, n);
    ServeKeepsBound(Before(events, n), events[n]);
  }

  /** At every instant at most 50 actions are pending. */
  lemma {:induction false} AtMostFiftyPending(events: seq<Event>, i: nat)
    requires EvictsOwnEntries(events) && i <= |events|
    ensures |Before(events, i)| <= MAX_PENDING
  {
    if i == 0 {
      assert Before(events, 0) == map[];
    } else {
      var n := i - 1;
      AtMostFiftyPending(events, n);
      EventKeepsBound(events, n);
      assert n + 1 == i;
    }
  }

  lemma Smaller(a: Table, b: Table)
    requires a.Keys <= b.Keys
    ensures |a| <= |b|
  {
    SubsetCard(a.Keys, b.Keys);
    assert |a| == |a.Keys| && |b| == |b.Keys|;
  }

  lemma {:induction false} SubsetCard(a: set<string>, b: set<string>)
    requires a <= b
    ensures |a| <= |b|
  {
    if a != {} {
      var x :| x in a;
      SubsetCard(a - {x}, b - {x});
    }
  }

  lemma RemoveOne(m: Table, id: string)
    requires id in m
    ensures |m - {id}| == |m| - 1
  {
    assert (m - {id}).Keys == m.Keys - {id};
    assert |m - {id}| == |(m - {id}).Keys|;
  }

  lemma AddOne(m: Table, id: string, p: Pending)
    ensures |m[id := p]| <= |m| + 1
  {
    assert m[id := p].Keys == m.Keys + {id};
    assert |m[id := p]| == |m[id := p].Keys|;
  }

  /** What one event does to one id. */
  lemma OneEvent(events: seq<Event>, i: nat, id: string)
    requires i < |events|
    ensures var before, after := Before(events, i), Before(events, i + 1);
            if events[i].Register? && events[i].id == id then
              id in after && after[id] == PendingOf(events[i])
            else
              && (id in after <==> id in before && before[id].expires > events[i].now
                                   && !Consumed(events, i, id) && !Evicted(events, i, id))
              && (id in after ==> after[id] == before[id])
  {}

  /** A live registration stays live exactly when it survives the next event. */
  lemma AliveStep(events: seq<Event>, j: nat, i: nat)
    requires j < i < |events|
    ensures Alive(events, j, i + 1) <==> Alive(events, j, i) && Survives(events, j, i)
  {}

  ghost predicate Registers(events: seq<Event>, j: nat, i: nat, id: string)
    requires i <= |events|
  {
    j < i && Alive(events, j, i) && events[j].id == id
  }

  ghost predicate RegistersAnew(events: seq<Event>, n: nat, id: string)
    requires n < |events|
  {
    events[n].Register? && events[n].id == id
  }

  /** Entry `id` of the table is registration `j`. */
  predicate Holds(events: seq<Event>, i: nat, id: string, j: nat)
    requires j < i <= |events| && events[j].Register?
  {
    id in Before(events, i) && Before(events, i)[id] == PendingOf(events[j])
  }

  lemma KeptRegistration(events: seq<Event>, n: nat, id: string, j: nat)
    requires n < |events| && !RegistersAnew(events, n, id)
    requires Registers(events, j, n, id)
    requires Holds(events, n, id, j)
    ensures Registers(events, j, n + 1, id) <==> id in Before(events, n + 1)
    ensures id in Before(events, n + 1) ==> Holds(events, n + 1, id, j)
  {
    OneEvent(events, n, id);
    AliveStep(events, j, n);
  }

  lemma WasLive(events: seq<Event>, n: nat, id: string, j: nat)
    requires j < n < |events| && Registers(events, j, n + 1, id)
    ensures Registers(events, j, n, id)
  {
    AliveStep(events, j, n);
  }

  lemma StaysInTable(events: seq<Event>, n: nat, id: string, j: nat)
    requires FreshIds(events) && j < n < |events|
    requires Registers(events, j, n, id) && Registers(events, j, n + 1, id) && Holds(events, n, id, j)
    ensures Holds(events, n + 1, id, j)
  {
    NotAnew(events, n, id, j);
    KeptRegistration(events, n, id, j);
  }

  lemma {:induction false} LiveAfter(events: seq<Event>, n: nat, id: string, j: nat)
    requires FreshIds(events) && n < |events| && Registers(events, j, n + 1, id)
    ensures Holds(events, n + 1, id, j)
    decreases n, 1
  {
    if j == n {
      HeldAtFirst(events, n, id, j);
    } else {
      WasLive(events, n, id, j);
      LiveIsInTable(events, n, id, j);
      StaysInTable(events, n, id, j);
    }
  }

  /** A live registration is in the table, as it was registered. */
  lemma {:induction false} LiveIsInTable(events: seq<Event>, i: nat, id: string, j: nat)
    requires FreshIds(events) && i <= |events| && Registers(events, j, i, id)
    ensures Holds(events, i, id, j)
    decreases i, 0
  {
    var n: nat := i - 1;
    assert n + 1 == i;
    LiveAfter(events, n, id, j);
  }

  lemma HeldAtFirst(events: seq<Event>, n: nat, id: string, j: nat)
    requires j == n < |events| && RegistersAnew(events, n, id)
    ensures Holds(events, n + 1, id, j)
  {
    OneEvent(events, n, id);
  }

  lemma NotAnew(events: seq<Event>, n: nat, id: string, j: nat)
    requires FreshIds(events) && j < n < |events| && events[j].Register? && events[j].id == id
    ensures !RegistersAnew(events, n, id)
  {}

  /** Whatever is in the table is a live registration. */
  lemma {:induction false} TableHoldsLive(events: seq<Event>, i: nat, id: string) returns (j: nat)
    requires FreshIds(events) && i <= |events| && id in Before(events, i)
    ensures Registers(events, j, i, id)
  {
    var n := i - 1;
    OneEvent(events, n, id);
    if RegistersAnew(events, n, id) {
      j := n;
      assert Alive(events, n, i);
    } else {
      j := TableHoldsLive(events, n, id);
      LiveIsInTable(events, n, id, j);
      KeptRegistration(events, n, id, j);
    }
  }

  /** The table holds exactly the live registrations. */
  lemma TableIsLiveRegistrations(events: seq<Event>, i: nat, id: string)
    requires FreshIds(events) && i <= |events|
    ensures id in Before(events, i) <==> exists j: nat :: Registers(events, j, i, id)
    ensures forall j: nat :: Registers(events, j, i, id) ==> Holds(events, i, id, j)
  {
    if id in Before(events, i) {
      var j := TableHoldsLive(events, i, id);
    }
    forall j: nat | Registers(events, j, i, id)
      ensures Holds(events, i, id, j)
    {
      LiveIsInTable(events, i, id, j);
    }
  }

  /** An action runs exactly when its own token is presented for a registration
      that is neither expired, consumed nor evicted; what runs is that action. */
  lemma RunsExactlyWhenLive(events: seq<Event>, i: nat)
    requires ValidRun(events) && i < |events| && events[i].Execute?
    ensures OutcomeAt(events, i).Ran? <==>
            exists j: nat :: Registers(events, j, i, events[i].id)
                        && events[i].now < events[j].created + TTL && events[j].token == events[i].token
    ensures forall j: nat :: Registers(events, j, i, events[i].id) && OutcomeAt(events, i).Ran? ==>
              OutcomeAt(events, i) == Ran(events[j].action)
  {
    var id := events[i].id;
    TableIsLiveRegistrations(events, i, id);
  }

  /** Registration `j` is the one that event `i` names, alive and unexpired. */
  ghost predicate Pends(events: seq<Event>, j: nat, i: nat)
    requires i < |events|
  {
    Registers(events, j, i, events[i].id) && events[i].now < events[j].created + TTL
  }

  /** A request for an action is answered by the registration it names: not found exactly
      when there is none that is alive and unexpired, forbidden exactly when there is one
      with another token, and carried out exactly when there is one with this token. */
  lemma AnsweredExactly(events: seq<Event>, i: nat)
    requires ValidRun(events) && i < |events| && !events[i].Register?
    ensures OutcomeAt(events, i).NotFound? <==> !exists j: nat :: Pends(events, j, i)
    ensures OutcomeAt(events, i).Forbidden? <==>
            exists j: nat :: Pends(events, j, i) && events[j].token != events[i].token
    ensures events[i].Cancel? ==>
              (OutcomeAt(events, i).Cancelled? <==>
               exists j: nat :: Pends(events, j, i) && events[j].token == events[i].token)
    ensures events[i].Execute? ==>
              (OutcomeAt(events, i).Ran? <==>
               exists j: nat :: Pends(events, j, i) && events[j].token == events[i].token)
  {
    var id := events[i].id;
    TableIsLiveRegistrations(events, i, id);
    forall j: nat | Pends(events, j, i)
      ensures id in Before(events, i) && Before(events, i)[id] == PendingOf(events[j])
    {
      assert Holds(events, i, id, j);
    }
    if id in Before(events, i) && events[i].now < Before(events, i)[id].expires {
      var j: nat :| Registers(events, j, i, id);
      assert Holds(events, i, id, j) && Pends(events, j, i);
    }
  }

  /** An action that is run or cancelled is gone, and every other unexpired one is as it
      was; a refused request takes nothing away. */
  lemma OnlyTheNamedGoes(events: seq<Event>, i: nat)
    requires i < |events| && !events[i].Register?
    ensures LeavesBut(Before(events, i), events[i].now,
                      if OutcomeAt(events, i).Ran? || OutcomeAt(events, i).Cancelled? then {events[i].id} else {},
                      Before(events, i + 1))
  {}

  lemma AliveAt(events: seq<Event>, j: nat, i: nat, k: nat)
    requires k < i <= |events| && j < i && Alive(events, j, i)
    ensures j < k ==> Survives(events, j, k)
  {}

  /** Once run or successfully cancelled, an action is never found again. */
  lemma ConsumedForGood(events: seq<Event>, k: nat, i: nat)
    requires ValidRun(events) && k < i < |events|
    requires Consumed(events, k, events[i].id) && !events[i].Register?
    ensures OutcomeAt(events, i) == NotFound
  {
    var id := events[i].id;
    TableIsLiveRegistrations(events, k, id);
    TableIsLiveRegistrations(events, i, id);
    var j: nat :| Registers(events, j, k, id);
    if id in Before(events, i) {
      var m: nat :| Registers(events, m, i, id);
      AliveAt(events, m, i, k);
    }
  }
}
