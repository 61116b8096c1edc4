/** What runs is what was proposed: the confirmation protocol together with the two
    normalisations, one at proposal and one at execution
    (src/control_plane/assistant_actions.rs, src/control_plane/assistant.rs). */
module ProposedRuns {
  import opened Options
  import Json
  import opened Confirmation
  import opened PayloadRepair
  import opened RepairMeaning

  /** The part of `propose_action` that settles the payload. */
  function Propose(verb: string, endpoint: string, summary: string, raw: Json.Value): Result<Action> {
    match Normalize(verb, endpoint, raw, summary)
    case Ok(payload) => Ok(Action(verb, endpoint, summary, payload))
    case Err(e) => Err(e)
  }

  /** A proposal keeps its route and summary, and its payload is settled for them. */
  lemma ProposeExactly(verb: string, endpoint: string, summary: string, raw: Json.Value)
    ensures Propose(verb, endpoint, summary, raw).Ok? <==> verb == "DELETE" || raw.Null? || raw.Obj?
    ensures Propose(verb, endpoint, summary, raw).Ok? ==>
              var a := Propose(verb, endpoint, summary, raw).value;
              && a.verb == verb && a.endpoint == endpoint && a.summary == summary
              && if verb == "DELETE" || raw.Null? then a.payload == raw
                 else Settles(verb, endpoint, summary, raw, a.payload)
  {
    NormalizeExactly(verb, endpoint, raw, summary);
  }

  ghost predicate Proposed(a: Action) {
    exists raw :: Propose(a.verb, a.endpoint, a.summary, raw) == Ok(a)
  }

  /** The part of `execute_action_payload` that settles the payload again. */
  function AppliedPayload(a: Action): Result<Json.Value> {
    Normalize(a.verb, a.endpoint, a.payload, a.summary)
  }

  lemma ProposedIsSettled(a: Action)
    requires Proposed(a)
    ensures AppliedPayload(a) == Ok(a.payload)
  {
    var raw :| Propose(a.verb, a.endpoint, a.summary, raw) == Ok(a);
    NormalizeIdempotent(a.verb, a.endpoint, raw, a.summary);
  }

  ghost predicate OnlyProposals(events: seq<Event>) {
    forall k :: 0 <= k < |events| && events[k].Register? ==> Proposed(events[k].action)
  }

  /** Registration `j` is the one that event `i` confirms. */
  ghost predicate Confirms(events: seq<Event>, i: nat, j: nat)
    requires i < |events|
  {
    && j < i && events[j].Register? && events[i].Execute?
    && events[j].id == events[i].id && events[j].token == events[i].token
    && events[i].now < events[j].created + TTL
  }

  /** Whatever is confirmed applies the very payload that was proposed, although
      the handler normalises it once more. */
  lemma WhatRunsWasProposed(events: seq<Event>, i: nat) returns (j: nat)
    requires ValidRun(events) && OnlyProposals(events)
    requires i < |events| && events[i].Execute? && OutcomeAt(events, i).Ran?
    ensures Confirms(events, i, j) && OutcomeAt(events, i) == Ran(events[j].action)
    ensures AppliedPayload(OutcomeAt(events, i).action) == Ok(events[j].action.payload)
  {
    RunsExactlyWhenLive(events, i);
    j :| 0 <= j < |events| && Registers(events, j, i, events[i].id)
         && events[i].now < events[j].created + TTL && events[j].token == events[i].token;
    ProposedIsSettled(events[j].action);
  }
}
