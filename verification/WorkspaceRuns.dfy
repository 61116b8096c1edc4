/** What every run of patches and actions keeps. */
module WorkspaceRuns {
  import opened Options
  import opened Text
  import opened NormalForms
  import opened Workspace
  import J = Json
  import PayloadRepair

  // ----- normal form -----

  /** Normalising any field of the sessions view again changes nothing. */
  predicate NormalSessions(v: SessionsView) {
    && NormalizeMethods(v.methods) == Ok(v.methods)
    && NormalizeBuckets(v.buckets) == Ok(v.buckets)
    && NormalizeHosts(v.hostFocus) == Ok(v.hostFocus)
    && NormalizeOptional(HostRule, v.hostFilter) == Ok(v.hostFilter)
    && NormalizeOptional(IdRule, v.selected) == Ok(v.selected)
  }

  predicate NormalFeature(v: FeatureView) {
    NormalizeOptional(IdRule, v.tab) == Ok(v.tab) && NormalizeOptional(IdRule, v.selectedId) == Ok(v.selectedId)
  }

  predicate NormalFeatures(fs: map<string, FeatureView>) {
    forall key :: key in fs ==> NormalFeature(fs[key])
  }

  predicate Normal(st: State) { NormalSessions(st.sessions) && NormalFeatures(st.features) }

  lemma FieldIsNormal(rule: Rule, p: PatchField, current: Option<string>)
    requires Stable(rule) && NormalizeOptional(rule, current) == Ok(current) && Field(rule, p, current).Ok?
    ensures var o := Field(rule, p, current).value; NormalizeOptional(rule, o) == Ok(o)
  {
    match p
    case Unspecified =>
    case Clear =>
    case Set(value) =>
      if rule(value).value.Some? { assert rule(rule(value).value.value) == rule(value); }
  }

  lemma PatchedSessionsNormal(v: SessionsView, p: SessionsPatch)
    requires NormalSessions(v) && PatchSessions(v, p).Ok?
    ensures NormalSessions(PatchSessions(v, p).value)
  {
    MethodRuleStable();
    BucketRuleStable();
    HostRuleStable();
    IdRuleStable();
    if p.methods.Some? { NormalizeAgain(MethodRule, p.methods.value); }
    if p.buckets.Some? { NormalizeAgain(BucketRule, p.buckets.value); }
    if p.hostFocus.Some? { NormalizeAgain(HostRule, p.hostFocus.value); }
    FieldIsNormal(HostRule, p.hostFilter, v.hostFilter);
    FieldIsNormal(IdRule, p.selected, v.selected);
  }

  lemma PatchedFeatureNormal(v: FeatureView, p: FeaturePatch)
    requires NormalFeature(v) && PatchFeature(v, p).Ok?
    ensures NormalFeature(PatchFeature(v, p).value)
  {
    IdRuleStable();
    FieldIsNormal(IdRule, p.tab, v.tab);
    FieldIsNormal(IdRule, p.selectedId, v.selectedId);
  }

  lemma {:induction false} PatchedFeaturesNormal(fs: map<string, FeatureView>, ps: seq<(string, FeaturePatch)>)
    requires NormalFeatures(fs) && PatchFeatures(fs, ps).Ok?
    ensures NormalFeatures(PatchFeatures(fs, ps).value)
    decreases |ps|
  {
    if ps != [] {
      var (key, p) := ps[0];
      var view := if key in fs then fs[key] else NO_FEATURE;
      PatchedFeatureNormal(view, p);
      PatchedFeaturesNormal(fs[key := PatchFeature(view, p).value], ps[1..]);
    }
  }

  lemma PatchedNormal(st: State, p: Patch, now: int)
    requires Normal(st) && Patched(st, p, now).Ok?
    ensures Normal(Patched(st, p, now).value) && Valid(Patched(st, p, now).value)
  {
    if p.sessions.Some? { PatchedSessionsNormal(st.sessions, p.sessions.value); }
    if p.features.Some? { PatchedFeaturesNormal(st.features, p.features.value); }
  }

  lemma DefaultViewNormal()
    ensures NormalSessions(DEFAULT_SESSIONS) && ValidSessions(DEFAULT_SESSIONS)
  {
    MethodsAreSettled();
    SettledIsFixed(MethodRule, ALLOWED_METHODS);
    BucketsAreSettled();
    SettledIsFixed(BucketRule, ALLOWED_STATUS_BUCKETS);
  }

  predicate NoLowerCase(s: string) { forall i :: 0 <= i < |s| ==> !('a' <= s[i] <= 'z') }

  lemma PlainMethod(m: string)
    requires m in ALLOWED_METHODS && NoLowerCase(m) && Trimmed(m)
    ensures MethodRule(m) == Ok(Some(m))
  {
    TrimFixed(m);
    assert Upper(m) == m;
  }

  lemma MethodsAreDistinct()
    ensures Distinct(ALLOWED_METHODS)
  {
    var s := ALLOWED_METHODS;
    forall i, j | 0 <= i < j < |s| ensures s[i] != s[j] {
      assert |s[i]| != |s[j]| || s[i][0] != s[j][0];
    }
  }

  lemma MethodsArePlain(m: string)
    requires m in ALLOWED_METHODS
    ensures NoLowerCase(m) && Trimmed(m)
  {}

  lemma MethodsAreSettled()
    ensures Settled(MethodRule, ALLOWED_METHODS)
  {
    MethodsAreDistinct();
    forall i | 0 <= i < |ALLOWED_METHODS| ensures MethodRule(ALLOWED_METHODS[i]) == Ok(Some(ALLOWED_METHODS[i])) {
      MethodsArePlain(ALLOWED_METHODS[i]);
      PlainMethod(ALLOWED_METHODS[i]);
    }
  }

  lemma PlainBucket(b: string)
    requires b in ALLOWED_STATUS_BUCKETS
    ensures BucketRule(b) == Ok(Some(b))
  {
    assert Trimmed(b);
    TrimFixed(b);
  }

  lemma BucketsAreDistinct()
    ensures Distinct(ALLOWED_STATUS_BUCKETS)
  {
    var s := ALLOWED_STATUS_BUCKETS;
    forall i, j | 0 <= i < j < |s| ensures s[i] != s[j] { assert s[i][0] != s[j][0]; }
  }

  lemma BucketsAreSettled()
    ensures Settled(BucketRule, ALLOWED_STATUS_BUCKETS)
  {
    BucketsAreDistinct();
    forall i | 0 <= i < |ALLOWED_STATUS_BUCKETS|
      ensures BucketRule(ALLOWED_STATUS_BUCKETS[i]) == Ok(Some(ALLOWED_STATUS_BUCKETS[i]))
    {
      PlainBucket(ALLOWED_STATUS_BUCKETS[i]);
    }
  }

  lemma KeptIdNormal(s: string)
    requires IdRule(s).Ok?
    ensures NormalizeOptional(IdRule, IdRule(s).value) == Ok(IdRule(s).value)
  {
    IdRuleStable();
    FieldIsNormal(IdRule, Set(s), None);
  }

  ghost predicate KeepsNormal(st: State, r: Result<State>) {
    r.Ok? ==> Normal(r.value) && r.value.version == st.version
  }

  lemma SelectSessionNormal(st: State, payload: J.Value)
    requires Normal(st)
    ensures KeepsNormal(st, SelectSession(st, payload))
  {
    var id := GetStr(payload, "id");
    if id.Some? && IdRule(id.value).Ok? { KeptIdNormal(id.value); }
  }

  lemma OpenRulesTabNormal(st: State, payload: J.Value)
    requires Normal(st)
    ensures KeepsNormal(st, OpenRulesTab(st, payload))
  {
    var tab := GetStr(payload, "tab");
    if tab.Some? && IdRule(tab.value).Ok? { KeptIdNormal(tab.value); }
  }

  lemma ClearFilterNormal(st: State)
    requires Normal(st)
    ensures KeepsNormal(st, ClearFilter(st))
  {
    DefaultViewNormal();
  }

  lemma SurfaceIsFree(st: State, surface: Surface, mode: ViewMode)
    requires Normal(st)
    ensures Normal(st.(surface := surface))
    ensures Normal(st.(surface := surface, sessions := st.sessions.(viewMode := mode)))
  {}

  lemma OpenSurfaceNormal(d: Decoder, st: State, payload: J.Value)
    requires Normal(st)
    ensures KeepsNormal(st, OpenSurface(d, st, payload))
  {
    var v := Get(payload, "surface");
    if v.Some? && d.surface(v.value).Some? {
      SurfaceIsFree(st, d.surface(v.value).value, st.sessions.viewMode);
    }
  }

  lemma SetViewModeNormal(d: Decoder, st: State, payload: J.Value)
    requires Normal(st)
    ensures KeepsNormal(st, SetViewMode(d, st, payload))
  {
    var r := SetViewMode(d, st, payload);
    if r.Ok? { SurfaceIsFree(st, Sessions, r.value.sessions.viewMode); }
  }

  lemma PerformedNormal(d: Decoder, st: State, name: string, payload: J.Value)
    requires Normal(st)
    ensures KeepsNormal(st, PerformAction(d, st, name, payload))
  {
    if name == "navigation.open_surface" {
      OpenSurfaceNormal(d, st, payload);
    } else if name == "sessions.set_view_mode" {
      SetViewModeNormal(d, st, payload);
    } else if name == "sessions.apply_filter" {
      ApplyFilterNormal(d, st, payload);
    } else if name == "sessions.clear_filter" {
      ClearFilterNormal(st);
    } else if name == "sessions.select" {
      SelectSessionNormal(st, payload);
    } else {
      OpenRulesTabNormal(st, payload);
    }
  }

  lemma ApplyFilterNormal(d: Decoder, st: State, payload: J.Value)
    requires Normal(st)
    ensures KeepsNormal(st, ApplyFilter(d, st, payload))
  {
    var patch := FilterPatch(d, payload);
    if patch.Ok? && PatchSessions(st.sessions, patch.value).Ok? { PatchedSessionsNormal(st.sessions, patch.value); }
  }

  // ----- one request -----

  /** An accepted request leaves a valid state in normal form, one version later. */
  lemma AcceptedStep(d: Decoder, st: State, req: Request)
    requires Normal(st) && Outcome(d, st, req).Ok?
    ensures var next := Step(d, st, req);
            Normal(next) && Valid(next) && next.version == Bump(st.version)
  {
    match req
    case PatchRequest(_, patch, now) => PatchedNormal(st, patch, now);
    case ActionRequest(name, payload, id, now) => ActedNormal(d, st, name, payload, id, now);
  }

  lemma ActedNormal(d: Decoder, st: State, name: string, payload: J.Value, actionId: string, now: int)
    requires Normal(st) && Acted(d, st, name, payload, actionId, now).Ok?
    ensures var next := Acted(d, st, name, payload, actionId, now).value;
            Normal(next) && Valid(next) && next.version == Bump(st.version)
  {
    PerformedNormal(d, st, name, PayloadRepair.Repair(payload));
  }

  /** A request is accepted only on its own base version, and a rejected one changes
      nothing. */
  lemma RejectedStep(d: Decoder, st: State, req: Request)
    ensures Outcome(d, st, req).Err? ==> Step(d, st, req) == st
    ensures req.PatchRequest? && req.baseVersion.Some? && req.baseVersion.value != st.version ==>
              Outcome(d, st, req).Err?
  {}

  // ----- runs -----

  /** The state after all of the requests, from the default state. */
  function After(d: Decoder, now: int, reqs: seq<Request>): State {
    if reqs == [] then Default(now)
    else
      var n := |reqs| - 1;
      Step(d, After(d, now, reqs[..n]), reqs[n])
  }

  /** How many of the requests were accepted. */
  function AcceptedCount(d: Decoder, now: int, reqs: seq<Request>): nat {
    if reqs == [] then 0
    else
      var n := |reqs| - 1;
      AcceptedCount(d, now, reqs[..n]) + if Outcome(d, After(d, now, reqs[..n]), reqs[n]).Ok? then 1 else 0
  }

  /** The state before request `i`. */
  function Before(d: Decoder, now: int, reqs: seq<Request>, i: nat): State
    requires i <= |reqs|
  {
    After(d, now, reqs[..i])
  }

  predicate Accepted(d: Decoder, now: int, reqs: seq<Request>, i: nat)
    requires i < |reqs|
  {
    Outcome(d, Before(d, now, reqs, i), reqs[i]).Ok?
  }

  function AcceptedBefore(d: Decoder, now: int, reqs: seq<Request>, i: nat): nat
    requires i <= |reqs|
  {
    AcceptedCount(d, now, reqs[..i])
  }

  lemma NextRequest(d: Decoder, now: int, reqs: seq<Request>, i: nat)
    requires i < |reqs|
    ensures Before(d, now, reqs, i + 1) == Step(d, Before(d, now, reqs, i), reqs[i])
    ensures AcceptedBefore(d, now, reqs, i) <= AcceptedBefore(d, now, reqs, i + 1)
  {
    assert reqs[..i + 1][..i] == reqs[..i];
  }

  lemma DefaultFeaturesNormal()
    ensures NormalFeatures(DEFAULT_FEATURES)
    ensures |DEFAULT_FEATURES| <= MAX_FEATURE_VIEW_COUNT
    ensures forall key :: key in DEFAULT_FEATURES ==> ValidFeature(DEFAULT_FEATURES[key])
  {
    TrimFixed("rules");
    Utf8LenBound("rules");
    assert IdRule("rules") == Ok(Some("rules"));
    assert DEFAULT_FEATURES.Keys == {"rules", "mock", "dns"};
    assert |DEFAULT_FEATURES| == |DEFAULT_FEATURES.Keys|;
  }

  lemma {:induction false} Utf8LenBound(s: string)
    ensures Utf8Len(s) <= 4 * |s|
  {
    if s != "" { Utf8LenBound(s[1..]); }
  }

  lemma DefaultKeysValid()
    ensures ValidKey("rules") && ValidKey("mock") && ValidKey("dns")
  {
    Utf8LenBound("rules");
    Utf8LenBound("mock");
    Utf8LenBound("dns");
  }

  lemma DefaultIsNormal(now: int)
    ensures Normal(Default(now)) && Valid(Default(now))
  {
    DefaultViewNormal();
    DefaultFeaturesNormal();
    DefaultFeaturesValid();
  }

  lemma DefaultFeaturesValid()
    ensures forall key :: key in DEFAULT_FEATURES ==> ValidKey(key)
  {
    DefaultKeysValid();
    assert DEFAULT_FEATURES.Keys == {"rules", "mock", "dns"};
  }

  function Capped(n: nat): nat { if n <= U64_MAX then n else U64_MAX }

  /** Valid, in normal form, and as many versions on as requests were accepted. */
  ghost predicate InStep(st: State, accepted: nat) {
    Normal(st) && Valid(st) && st.version == Capped(1 + accepted)
  }

  lemma StepInStep(d: Decoder, st: State, req: Request, accepted: nat)
    requires InStep(st, accepted)
    ensures InStep(Step(d, st, req), if Outcome(d, st, req).Ok? then accepted + 1 else accepted)
  {
    if Outcome(d, st, req).Ok? { AcceptedStep(d, st, req); } else { RejectedStep(d, st, req); }
  }

  lemma {:induction false} RunInStep(d: Decoder, now: int, reqs: seq<Request>)
    ensures InStep(After(d, now, reqs), AcceptedCount(d, now, reqs))
  {
    if reqs == [] {
      DefaultIsNormal(now);
    } else {
      var n := |reqs| - 1;
      RunInStep(d, now, reqs[..n]);
      StepInStep(d, After(d, now, reqs[..n]), reqs[n], AcceptedCount(d, now, reqs[..n]));
    }
  }

  /** In every run each state is valid and in normal form, and the version is one more
      than the number of accepted requests, up to the end of the 64-bit range. */
  lemma EveryRun(d: Decoder, now: int, reqs: seq<Request>, i: nat)
    requires i <= |reqs|
    ensures var st := Before(d, now, reqs, i);
            && Normal(st) && Valid(st)
            && st.version == if 1 + AcceptedBefore(d, now, reqs, i) <= U64_MAX
                             then 1 + AcceptedBefore(d, now, reqs, i) else U64_MAX
  {
    RunInStep(d, now, reqs[..i]);
  }

  lemma {:induction false} AcceptedGrows(d: Decoder, now: int, reqs: seq<Request>, i: nat, j: nat)
    requires i <= j <= |reqs|
    ensures AcceptedBefore(d, now, reqs, i) <= AcceptedBefore(d, now, reqs, j)
    decreases j
  {
    if i < j {
      AcceptedGrows(d, now, reqs, i, j - 1);
      NextRequest(d, now, reqs, j - 1);
    }
  }

  lemma VersionGrows(d: Decoder, now: int, reqs: seq<Request>, i: nat, j: nat)
    requires i <= j <= |reqs|
    ensures Before(d, now, reqs, i).version <= Before(d, now, reqs, j).version
  {
    RunInStep(d, now, reqs[..i]);
    RunInStep(d, now, reqs[..j]);
    AcceptedGrows(d, now, reqs, i, j);
  }

  ghost predicate PatchOn(req: Request, base: nat) {
    req.PatchRequest? && req.baseVersion == Some(base)
  }

  /** Request `i` is a patch on `base`, and it is accepted. */
  ghost predicate AcceptedOn(d: Decoder, now: int, reqs: seq<Request>, i: nat, base: nat) {
    i < |reqs| && PatchOn(reqs[i], base) && Accepted(d, now, reqs, i)
  }

  lemma AcceptedPatch(d: Decoder, now: int, reqs: seq<Request>, i: nat, base: nat)
    requires AcceptedOn(d, now, reqs, i, base)
    ensures Before(d, now, reqs, i).version == base <= U64_MAX
    ensures Before(d, now, reqs, i + 1).version == Bump(base)
  {
    var st := Before(d, now, reqs, i);
    EveryRun(d, now, reqs, i);
    NextRequest(d, now, reqs, i);
    RejectedStep(d, st, reqs[i]);
    AcceptedStep(d, st, reqs[i]);
  }

  /** Of several patches on one base version at most one is accepted, unless the
      version has reached the end of the 64-bit range. */
  lemma OnePatchPerVersion(d: Decoder, now: int, reqs: seq<Request>, i: nat, j: nat, base: nat)
    requires i < j && AcceptedOn(d, now, reqs, i, base) && AcceptedOn(d, now, reqs, j, base)
    ensures base == U64_MAX
  {
    AcceptedPatch(d, now, reqs, i, base);
    AcceptedPatch(d, now, reqs, j, base);
    VersionGrows(d, now, reqs, i + 1, j);
  }

  const NO_CHANGE := Patch(None, None, None)

  /** At that end the guard no longer holds: the same base version is accepted twice. */
  lemma SaturatedVersionAcceptsTwice(d: Decoder, st: State, now: int)
    requires Normal(st) && Valid(st) && st.version == U64_MAX
    ensures var req := PatchRequest(Some(U64_MAX), NO_CHANGE, now);
            Outcome(d, st, req).Ok? && Outcome(d, Step(d, st, req), req).Ok?
  {
    var next := st.(surface := st.surface);
    assert next == st;
    assert Patched(st, NO_CHANGE, now) == Ok(st.(version := U64_MAX, updatedAt := now));
  }
}
