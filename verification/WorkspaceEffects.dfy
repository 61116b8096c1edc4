/** What an accepted patch or action does to the workspace, field by field, and what it
    leaves alone (src/control_plane/workspace.rs). */
module WorkspaceEffects {
  import opened Options
  import opened Text
  import opened Selections
  import opened NormalForms
  import opened Workspace
  import J = Json
  import PayloadRepair
  import opened WorkspaceRuns

  // ----- patches -----

  /** A plain field: a given value is the one stored. */
  ghost predicate Given<T>(p: Option<T>, before: T, after: T) {
    if p.Some? then after == p.value else after == before
  }

  /** A list: a given one is stored as what its entries are kept as. */
  ghost predicate GivenList(rule: Rule, p: Option<seq<string>>, before: seq<string>, after: seq<string>) {
    if p.Some? then Appearances(rule, p.value, after) else after == before
  }

  /** A field that can be cleared. */
  ghost predicate GivenField(rule: Rule, p: PatchField, before: Option<string>, after: Option<string>) {
    match p
    case Unspecified => after == before
    case Clear => after == None
    case Set(text) => rule(text) == Ok(after)
  }

  ghost predicate SessionsEffect(v: SessionsView, p: SessionsPatch, next: SessionsView) {
    && Given(p.query, v.query, next.query) && Given(p.regex, v.regex, next.regex)
    && Given(p.sort, v.sort, next.sort) && Given(p.viewMode, v.viewMode, next.viewMode)
    && Given(p.wireFilter, v.wireFilter, next.wireFilter) && Given(p.appFilter, v.appFilter, next.appFilter)
    && GivenList(MethodRule, p.methods, v.methods, next.methods)
    && GivenList(BucketRule, p.buckets, v.buckets, next.buckets)
    && GivenList(HostRule, p.hostFocus, v.hostFocus, next.hostFocus)
    && (p.hostFocus.Some? ==> |p.hostFocus.value| <= MAX_HOST_FOCUS)
    && GivenField(HostRule, p.hostFilter, v.hostFilter, next.hostFilter)
    && GivenField(IdRule, p.selected, v.selected, next.selected)
  }

  lemma ListExactly(rule: Rule, normalize: seq<string> -> Result<seq<string>>, p: Option<seq<string>>,
                    before: seq<string>, after: seq<string>)
    requires forall entries :: normalize(entries) == NormalizeAll(rule, entries)
    ensures ListField(normalize, p, before) == Ok(after) <==> GivenList(rule, p, before, after)
  {
    if p.Some? { NormalizedExactly(rule, p.value, after); }
  }

  lemma HostsExactly(p: Option<seq<string>>, before: seq<string>, after: seq<string>)
    ensures ListField(NormalizeHosts, p, before) == Ok(after) <==>
            GivenList(HostRule, p, before, after) && (p.Some? ==> |p.value| <= MAX_HOST_FOCUS)
  {
    if p.Some? { NormalizedExactly(HostRule, p.value, after); }
  }

  lemma FieldExactly(rule: Rule, p: PatchField, before: Option<string>, after: Option<string>)
    ensures Field(rule, p, before) == Ok(after) <==> GivenField(rule, p, before, after)
  {}

  ghost predicate Normalised(v: SessionsView, p: SessionsPatch, next: SessionsView) {
    && ListField(NormalizeMethods, p.methods, v.methods) == Ok(next.methods)
    && ListField(NormalizeBuckets, p.buckets, v.buckets) == Ok(next.buckets)
    && ListField(NormalizeHosts, p.hostFocus, v.hostFocus) == Ok(next.hostFocus)
    && Field(HostRule, p.hostFilter, v.hostFilter) == Ok(next.hostFilter)
    && Field(IdRule, p.selected, v.selected) == Ok(next.selected)
  }

  lemma SessionsParts(v: SessionsView, p: SessionsPatch, next: SessionsView)
    ensures PatchSessions(v, p) == Ok(next) <==>
            && Normalised(v, p, next) && ValidSessions(next)
            && next.query == GetOr(p.query, v.query) && next.regex == GetOr(p.regex, v.regex)
            && next.sort == GetOr(p.sort, v.sort) && next.viewMode == GetOr(p.viewMode, v.viewMode)
            && next.wireFilter == GetOr(p.wireFilter, v.wireFilter) && next.appFilter == GetOr(p.appFilter, v.appFilter)
  {}

  lemma NormalisedExactly(v: SessionsView, p: SessionsPatch, next: SessionsView)
    ensures Normalised(v, p, next) <==>
            && GivenList(MethodRule, p.methods, v.methods, next.methods)
            && GivenList(BucketRule, p.buckets, v.buckets, next.buckets)
            && GivenList(HostRule, p.hostFocus, v.hostFocus, next.hostFocus)
            && (p.hostFocus.Some? ==> |p.hostFocus.value| <= MAX_HOST_FOCUS)
            && GivenField(HostRule, p.hostFilter, v.hostFilter, next.hostFilter)
            && GivenField(IdRule, p.selected, v.selected, next.selected)
  {
    ListExactly(MethodRule, NormalizeMethods, p.methods, v.methods, next.methods);
    ListExactly(BucketRule, NormalizeBuckets, p.buckets, v.buckets, next.buckets);
    HostsExactly(p.hostFocus, v.hostFocus, next.hostFocus);
    FieldExactly(HostRule, p.hostFilter, v.hostFilter, next.hostFilter);
    FieldExactly(IdRule, p.selected, v.selected, next.selected);
  }

  /** A patch of the sessions view gives `next` exactly when `next` is valid and holds
      what the patch gives and nothing else. */
  lemma SessionsExactly(v: SessionsView, p: SessionsPatch, next: SessionsView)
    ensures PatchSessions(v, p) == Ok(next) <==> SessionsEffect(v, p, next) && ValidSessions(next)
  {
    SessionsParts(v, p, next);
    NormalisedExactly(v, p, next);
  }

  ghost predicate FeatureEffect(v: FeatureView, p: FeaturePatch, next: FeatureView) {
    GivenField(IdRule, p.tab, v.tab, next.tab) && GivenField(IdRule, p.selectedId, v.selectedId, next.selectedId)
  }

  lemma FeatureExactly(v: FeatureView, p: FeaturePatch, next: FeatureView)
    ensures PatchFeature(v, p) == Ok(next) <==> FeatureEffect(v, p, next) && ValidFeature(next)
  {
    FieldExactly(IdRule, p.tab, v.tab, next.tab);
    FieldExactly(IdRule, p.selectedId, v.selectedId, next.selectedId);
  }

  function ViewOf(fs: map<string, FeatureView>, key: string): FeatureView {
    if key in fs then fs[key] else FeatureView(None, None)
  }

  /** Each key at most once, as in a map. */
  ghost predicate DistinctKeys(ps: seq<(string, FeaturePatch)>) {
    forall i, j :: 0 <= i < j < |ps| ==> ps[i].0 != ps[j].0
  }

  ghost predicate Mentions(ps: seq<(string, FeaturePatch)>, key: string) {
    exists i :: 0 <= i < |ps| && ps[i].0 == key
  }

  /** Each mentioned view is patched, or made and patched; all others stay as they are. */
  ghost predicate FeaturesEffect(fs: map<string, FeatureView>, ps: seq<(string, FeaturePatch)>,
                                 next: map<string, FeatureView>)
  {
    && (forall i :: 0 <= i < |ps| ==>
          ps[i].0 in next && FeatureEffect(ViewOf(fs, ps[i].0), ps[i].1, next[ps[i].0]))
    && (forall key :: !Mentions(ps, key) ==> (key in next <==> key in fs))
    && (forall key :: !Mentions(ps, key) && key in fs && key in next ==> next[key] == fs[key])
  }

  ghost predicate MentionedValid(ps: seq<(string, FeaturePatch)>, next: map<string, FeatureView>) {
    forall i :: 0 <= i < |ps| ==> ValidKey(ps[i].0) && ps[i].0 in next && ValidFeature(next[ps[i].0])
  }

  lemma MentionsTail(ps: seq<(string, FeaturePatch)>, key: string)
    requires ps != []
    ensures Mentions(ps, key) <==> ps[0].0 == key || Mentions(ps[1..], key)
  {
    if Mentions(ps, key) {
      var i :| 0 <= i < |ps| && ps[i].0 == key;
      if i > 0 { assert ps[1..][i - 1].0 == key; }
    }
    if Mentions(ps[1..], key) {
      var i :| 0 <= i < |ps[1..]| && ps[1..][i].0 == key;
      assert ps[i + 1].0 == key;
    }
  }

  /** The effect of the first patch, and then of the others. */
  lemma FirstFeature(fs: map<string, FeatureView>, ps: seq<(string, FeaturePatch)>, next: map<string, FeatureView>)
    requires ps != [] && DistinctKeys(ps)
    ensures var (key, p) := ps[0];
            FeaturesEffect(fs, ps, next) <==>
            && key in next && FeatureEffect(ViewOf(fs, key), p, next[key])
            && FeaturesEffect(fs[key := next[key]], ps[1..], next)
  {
    var (key, p) := ps[0];
    if key in next {
      RestAfterFirst(fs, ps, next);
      if FeatureEffect(ViewOf(fs, key), p, next[key]) && FeaturesEffect(fs[key := next[key]], ps[1..], next) {
        FirstThenRest(fs, ps, next);
      }
    }
  }

  lemma NotAgain(ps: seq<(string, FeaturePatch)>)
    requires ps != [] && DistinctKeys(ps)
    ensures !Mentions(ps[1..], ps[0].0) && DistinctKeys(ps[1..])
  {}

  lemma RestAfterFirst(fs: map<string, FeatureView>, ps: seq<(string, FeaturePatch)>, next: map<string, FeatureView>)
    requires ps != [] && DistinctKeys(ps) && ps[0].0 in next
    ensures FeaturesEffect(fs, ps, next) ==> FeaturesEffect(fs[ps[0].0 := next[ps[0].0]], ps[1..], next)
  {
    if FeaturesEffect(fs, ps, next) {
      var key, rest := ps[0].0, ps[1..];
      var mid := fs[key := next[key]];
      NotAgain(ps);
      forall i | 0 <= i < |rest|
        ensures rest[i].0 in next && FeatureEffect(ViewOf(mid, rest[i].0), rest[i].1, next[rest[i].0])
      {
        assert rest[i] == ps[i + 1] && ViewOf(mid, rest[i].0) == ViewOf(fs, rest[i].0);
      }
      forall k | !Mentions(rest, k) ensures k in next <==> k in mid { MentionsTail(ps, k); }
      forall k | !Mentions(rest, k) && k in mid && k in next ensures next[k] == mid[k] { MentionsTail(ps, k); }
    }
  }

  lemma FirstThenRest(fs: map<string, FeatureView>, ps: seq<(string, FeaturePatch)>, next: map<string, FeatureView>)
    requires ps != [] && DistinctKeys(ps) && ps[0].0 in next
    requires FeatureEffect(ViewOf(fs, ps[0].0), ps[0].1, next[ps[0].0])
    requires FeaturesEffect(fs[ps[0].0 := next[ps[0].0]], ps[1..], next)
    ensures FeaturesEffect(fs, ps, next)
  {
    var key, rest := ps[0].0, ps[1..];
    var mid := fs[key := next[key]];
    forall i | 0 <= i < |ps| ensures ps[i].0 in next && FeatureEffect(ViewOf(fs, ps[i].0), ps[i].1, next[ps[i].0]) {
      if i > 0 { assert rest[i - 1] == ps[i] && ViewOf(mid, ps[i].0) == ViewOf(fs, ps[i].0); }
    }
    forall k | !Mentions(ps, k) ensures k in next <==> k in fs { MentionsTail(ps, k); }
    forall k | !Mentions(ps, k) && k in fs && k in next ensures next[k] == fs[k] { MentionsTail(ps, k); }
  }

  lemma FirstValid(ps: seq<(string, FeaturePatch)>, next: map<string, FeatureView>)
    requires ps != []
    ensures MentionedValid(ps, next) <==>
            && ValidKey(ps[0].0) && ps[0].0 in next && ValidFeature(next[ps[0].0])
            && MentionedValid(ps[1..], next)
  {
    if MentionedValid(ps, next) {
      forall i | 0 <= i < |ps[1..]|
        ensures ValidKey(ps[1..][i].0) && ps[1..][i].0 in next && ValidFeature(next[ps[1..][i].0])
      {
        assert ps[1..][i] == ps[i + 1];
      }
    }
    if ValidKey(ps[0].0) && ps[0].0 in next && ValidFeature(next[ps[0].0]) && MentionedValid(ps[1..], next) {
      forall i | 0 <= i < |ps| ensures ValidKey(ps[i].0) && ps[i].0 in next && ValidFeature(next[ps[i].0]) {
        if i > 0 { assert ps[1..][i - 1] == ps[i]; }
      }
    }
  }

  /** Patching the feature views has exactly its effect, and makes valid views only. */
  lemma {:induction false} FeaturesExactly(fs: map<string, FeatureView>, ps: seq<(string, FeaturePatch)>,
                                           next: map<string, FeatureView>)
    requires DistinctKeys(ps)
    ensures PatchFeatures(fs, ps) == Ok(next) <==> FeaturesEffect(fs, ps, next) && MentionedValid(ps, next)
    decreases |ps|
  {
    if ps == [] {
      if FeaturesEffect(fs, ps, next) {
        assert forall key :: !Mentions(ps, key);
        assert fs == next;
      }
    } else {
      FirstFeature(fs, ps, next);
      FirstValid(ps, next);
      NotAgain(ps);
      FirstPatched(fs, ps, next);
    }
  }

  lemma {:induction false} FirstPatched(fs: map<string, FeatureView>, ps: seq<(string, FeaturePatch)>,
                                        next: map<string, FeatureView>)
    requires ps != [] && DistinctKeys(ps) && DistinctKeys(ps[1..])
    ensures var (key, p) := ps[0];
            PatchFeatures(fs, ps) == Ok(next) <==>
            && ValidKey(key) && key in next && FeatureEffect(ViewOf(fs, key), p, next[key]) && ValidFeature(next[key])
            && FeaturesEffect(fs[key := next[key]], ps[1..], next) && MentionedValid(ps[1..], next)
    decreases |ps|, 0
  {
    var (key, p) := ps[0];
    var view := PatchFeature(ViewOf(fs, key), p);
    NotAgain(ps);
    if view.Ok? {
      FeaturesExactly(fs[key := view.value], ps[1..], next);
      FeatureExactly(ViewOf(fs, key), p, view.value);
    }
    if key in next {
      FeaturesExactly(fs[key := next[key]], ps[1..], next);
      FeatureExactly(ViewOf(fs, key), p, next[key]);
    }
  }

  /** What an accepted patch does to the whole workspace. */
  ghost predicate PatchEffect(st: State, p: Patch, now: int, next: State) {
    && Given(p.surface, st.surface, next.surface)
    && (if p.sessions.Some? then SessionsEffect(st.sessions, p.sessions.value, next.sessions)
        else next.sessions == st.sessions)
    && (if p.features.Some? then
          |p.features.value| <= MAX_FEATURE_VIEW_COUNT && FeaturesEffect(st.features, p.features.value, next.features)
        else next.features == st.features)
    && next.lastIntent == st.lastIntent && next.lastActionId == st.lastActionId && next.updatedAt == now
    && next.version == if st.version < U64_MAX then st.version + 1 else st.version
  }

  ghost predicate KeysOnce(p: Patch) { p.features.Some? ==> DistinctKeys(p.features.value) }

  /** A patch gives `next` exactly when `next` is valid, and is the old workspace with what
      the patch gives, one version later. */
  lemma PatchedExactly(st: State, p: Patch, now: int, next: State)
    requires KeysOnce(p)
    ensures Patched(st, p, now) == Ok(next) <==> PatchEffect(st, p, now, next) && Valid(next)
  {
    if p.sessions.Some? { SessionsExactly(st.sessions, p.sessions.value, next.sessions); }
    if p.features.Some? { FeaturesExactly(st.features, p.features.value, next.features); }
    PatchedParts(st, p, now, next);
  }

  function SessionsPart(st: State, p: Patch): Result<SessionsView> {
    if p.sessions.Some? then PatchSessions(st.sessions, p.sessions.value) else Ok(st.sessions)
  }

  function FeaturesPart(st: State, p: Patch): Result<map<string, FeatureView>> {
    if p.features.None? then Ok(st.features)
    else if |p.features.value| > MAX_FEATURE_VIEW_COUNT then Err("too many feature_views")
    else PatchFeatures(st.features, p.features.value)
  }

  lemma PatchedParts(st: State, p: Patch, now: int, next: State)
    ensures Patched(st, p, now) == Ok(next) <==>
            && SessionsPart(st, p) == Ok(next.sessions) && FeaturesPart(st, p) == Ok(next.features) && Valid(next)
            && next == State(Bump(st.version), GetOr(p.surface, st.surface), next.sessions, next.features,
                             st.lastIntent, st.lastActionId, now)
  {
    assert Valid(next.(version := st.version, updatedAt := st.updatedAt)) <==> Valid(next);
  }

  // ----- actions -----

  /** The entry at `i` is the first under `key`, and holds `v`. */
  ghost predicate FirstAt(fields: seq<J.Field>, key: string, v: J.Value, i: int) {
    0 <= i < |fields| && fields[i] == J.Field(key, v) && forall k :: 0 <= k < i ==> fields[k].key != key
  }

  /** The first entry of the payload under `key` holds `v`. */
  ghost predicate At(payload: J.Value, key: string, v: J.Value) {
    payload.Obj? && exists i :: FirstAt(payload.fields, key, v, i)
  }

  lemma FirstAtNext(first: J.Field, rest: seq<J.Field>, key: string, v: J.Value, i: int)
    requires first.key != key && i >= 0
    ensures FirstAt([first] + rest, key, v, i + 1) <==> FirstAt(rest, key, v, i)
  {
    var fields := [first] + rest;
    assert forall k :: 0 <= k < |rest| ==> fields[k + 1] == rest[k];
    if FirstAt(fields, key, v, i + 1) {
      forall k | 0 <= k < i ensures rest[k].key != key { assert fields[k + 1].key != key; }
    }
    if FirstAt(rest, key, v, i) {
      forall k | 0 <= k < i + 1 ensures fields[k].key != key { if k > 0 { assert rest[k - 1].key != key; } }
    }
  }

  lemma AtFront(first: J.Field, rest: seq<J.Field>, key: string, v: J.Value)
    ensures At(J.Obj([first] + rest), key, v) <==>
            if first.key == key then first.value == v else At(J.Obj(rest), key, v)
  {
    var fields := [first] + rest;
    if first.key == key {
      assert first.value == v ==> FirstAt(fields, key, v, 0);
      if At(J.Obj(fields), key, v) {
        var i :| FirstAt(fields, key, v, i);
        assert fields[0].key == key;
      }
    } else {
      if i :| FirstAt(fields, key, v, i) {
        assert fields[0] == first;
        FirstAtNext(first, rest, key, v, i - 1);
      }
      if i :| FirstAt(rest, key, v, i) { FirstAtNext(first, rest, key, v, i); }
    }
  }

  lemma {:induction false} FieldOfExactly(fields: seq<J.Field>, key: string, v: J.Value)
    ensures FieldOf(fields, key) == Some(v) <==> At(J.Obj(fields), key, v)
  {
    if fields != [] {
      FieldOfExactly(fields[1..], key, v);
      AtFront(fields[0], fields[1..], key, v);
      assert [fields[0]] + fields[1..] == fields;
    }
  }

  /** Looking a key up finds the first entry under it. */
  lemma GetExactly(payload: J.Value, key: string, v: J.Value)
    ensures Get(payload, key) == Some(v) <==> At(payload, key, v)
  {
    if payload.Obj? { FieldOfExactly(payload.fields, key, v); }
  }

  ghost predicate IsText(payload: J.Value, key: string, o: Option<string>) {
    forall s :: o == Some(s) <==> At(payload, key, J.Str(s))
  }

  ghost predicate IsTruth(payload: J.Value, key: string, o: Option<bool>) {
    forall b :: o == Some(b) <==> At(payload, key, J.Bool(b))
  }

  function TextOf(v: J.Value): Option<string> { if v.Str? then Some(v.s) else None }

  /** The texts of an array; what else it holds is passed over. */
  ghost predicate IsTexts(payload: J.Value, key: string, o: Option<seq<string>>) {
    if o.Some? then exists items :: At(payload, key, J.Arr(items)) && Selects(TextOf, items, o.value)
    else forall items :: !At(payload, key, J.Arr(items))
  }

  ghost predicate IsField(d: Decoder, payload: J.Value, key: string, p: PatchField) {
    match p
    case Unspecified => forall v :: !At(payload, key, v)
    case Clear => At(payload, key, J.Null)
    case Set(text) => exists v :: At(payload, key, v) && !v.Null? && text == if v.Str? then v.s else d.text(v)
  }

  /** A value that the reader must accept; null counts as none. */
  ghost predicate IsRead<T>(read: J.Value -> Option<T>, payload: J.Value, key: string, o: Option<T>) {
    if o.Some? then exists v :: At(payload, key, v) && !v.Null? && read(v) == o
    else forall v :: At(payload, key, v) ==> v.Null?
  }

  ghost predicate ReadsFilter(d: Decoder, payload: J.Value, p: SessionsPatch) {
    && IsText(payload, "query", p.query) && IsTruth(payload, "regex", p.regex)
    && IsTexts(payload, "methods", p.methods) && IsTexts(payload, "status_buckets", p.buckets)
    && IsTexts(payload, "host_focus", p.hostFocus)
    && IsField(d, payload, "host_filter", p.hostFilter) && IsField(d, payload, "selected_session_id", p.selected)
    && IsRead(d.sort, payload, "sort", p.sort) && IsRead(d.mode, payload, "view_mode", p.viewMode)
    && IsTexts(payload, "wire_filter", p.wireFilter) && IsTexts(payload, "app_filter", p.appFilter)
  }

  lemma TextExactly(payload: J.Value, key: string, o: Option<string>)
    ensures o == GetStr(payload, key) <==> IsText(payload, key, o)
  {
    forall s ensures Get(payload, key) == Some(J.Str(s)) <==> At(payload, key, J.Str(s)) {
      GetExactly(payload, key, J.Str(s));
    }
    var r := GetStr(payload, key);
    assert forall s :: r == Some(s) <==> At(payload, key, J.Str(s));
    if IsText(payload, key, o) {
      if o.Some? { assert At(payload, key, J.Str(o.value)); }
      if r.Some? { assert At(payload, key, J.Str(r.value)); }
    }
  }

  lemma TruthExactly(payload: J.Value, key: string, o: Option<bool>)
    ensures o == GetBool(payload, key) <==> IsTruth(payload, key, o)
  {
    GetExactly(payload, key, J.Bool(true));
    GetExactly(payload, key, J.Bool(false));
    var r := GetBool(payload, key);
    assert forall b :: r == Some(b) <==> At(payload, key, J.Bool(b));
    if IsTruth(payload, key, o) {
      if o.Some? { assert At(payload, key, J.Bool(o.value)); }
      if r.Some? { assert At(payload, key, J.Bool(r.value)); }
    }
  }

  lemma {:induction false} StringsSelected(items: seq<J.Value>)
    ensures Selects(TextOf, items, Strings(items))
  {
    if items == [] {
      SelectsNone(TextOf);
    } else {
      StringsSelected(items[1..]);
      SelectsFront(TextOf, items[0], items[1..], Strings(items[1..]));
      assert [items[0]] + items[1..] == items;
    }
  }

  lemma TextsExactly(payload: J.Value, key: string, o: Option<seq<string>>)
    ensures o == GetStrings(payload, key) <==> IsTexts(payload, key, o)
  {
    forall v ensures Get(payload, key) == Some(v) <==> At(payload, key, v) { GetExactly(payload, key, v); }
    var found := Get(payload, key);
    if found.Some? && found.value.Arr? {
      var items := found.value.items;
      StringsSelected(items);
      assert At(payload, key, J.Arr(items));
      if IsTexts(payload, key, o) && o.Some? {
        var other :| At(payload, key, J.Arr(other)) && Selects(TextOf, other, o.value);
        SelectsOne(TextOf, items, o.value, Strings(items));
      }
    }
  }

  lemma PatchFieldExactly(d: Decoder, payload: J.Value, key: string, p: PatchField)
    ensures p == GetPatchField(d, payload, key) <==> IsField(d, payload, key, p)
  {
    forall v ensures Get(payload, key) == Some(v) <==> At(payload, key, v) { GetExactly(payload, key, v); }
    if Get(payload, key).Some? { assert At(payload, key, Get(payload, key).value); }
  }

  lemma ReadExactly<T>(read: J.Value -> Option<T>, payload: J.Value, key: string, o: Option<T>)
    ensures var found := NonNull(Get(payload, key));
            IsRead(read, payload, key, o) <==>
            if found.Some? then o.Some? && read(found.value) == o else o.None?
  {
    forall v ensures Get(payload, key) == Some(v) <==> At(payload, key, v) { GetExactly(payload, key, v); }
    if Get(payload, key).Some? { assert At(payload, key, Get(payload, key).value); }
  }

  function SortPart(d: Decoder, payload: J.Value): Option<J.Value> { NonNull(Get(payload, "sort")) }

  function ModePart(payload: J.Value): Option<J.Value> { NonNull(Get(payload, "view_mode")) }

  lemma FilterParts(d: Decoder, payload: J.Value, p: SessionsPatch)
    ensures FilterPatch(d, payload) == Ok(p) <==>
            && p.query == GetStr(payload, "query") && p.regex == GetBool(payload, "regex")
            && p.methods == GetStrings(payload, "methods") && p.buckets == GetStrings(payload, "status_buckets")
            && p.hostFocus == GetStrings(payload, "host_focus")
            && p.hostFilter == GetPatchField(d, payload, "host_filter")
            && p.selected == GetPatchField(d, payload, "selected_session_id")
            && (var v := SortPart(d, payload);
                if v.Some? then p.sort.Some? && d.sort(v.value) == p.sort else p.sort.None?)
            && (var v := ModePart(payload);
                if v.Some? then p.viewMode.Some? && d.mode(v.value) == p.viewMode else p.viewMode.None?)
            && p.wireFilter == GetStrings(payload, "wire_filter") && p.appFilter == GetStrings(payload, "app_filter")
  {}

  /** A filter action stands for the patch that its payload spells out. */
  lemma FilterExactly(d: Decoder, payload: J.Value, p: SessionsPatch)
    ensures FilterPatch(d, payload) == Ok(p) <==> ReadsFilter(d, payload, p)
  {
    FilterParts(d, payload, p);
    TextExactly(payload, "query", p.query);
    TruthExactly(payload, "regex", p.regex);
    TextsExactly(payload, "methods", p.methods);
    TextsExactly(payload, "status_buckets", p.buckets);
    TextsExactly(payload, "host_focus", p.hostFocus);
    PatchFieldExactly(d, payload, "host_filter", p.hostFilter);
    PatchFieldExactly(d, payload, "selected_session_id", p.selected);
    ReadExactly(d.sort, payload, "sort", p.sort);
    ReadExactly(d.mode, payload, "view_mode", p.viewMode);
    TextsExactly(payload, "wire_filter", p.wireFilter);
    TextsExactly(payload, "app_filter", p.appFilter);
  }

  /** The view mode stands under its own key, or else under a shorter one. */
  ghost predicate ModeAt(payload: J.Value, v: J.Value) {
    At(payload, "view_mode", v) || ((forall w :: !At(payload, "view_mode", w)) && At(payload, "mode", v))
  }

  // Besides what is said here, an action changes nothing.

  ghost predicate SurfaceOpened(d: Decoder, st: State, payload: J.Value, next: State) {
    && next == st.(surface := next.surface)
    && exists v :: At(payload, "surface", v) && d.surface(v) == Some(next.surface)
  }

  ghost predicate Filtered(d: Decoder, st: State, payload: J.Value, next: State) {
    && next == st.(surface := Sessions, sessions := next.sessions)
    && exists p :: ReadsFilter(d, payload, p) && SessionsEffect(st.sessions, p, next.sessions)
  }

  ghost predicate Cleared(st: State, next: State) {
    next == st.(surface := Sessions, sessions := SessionsView(
                  "", false, ALLOWED_METHODS, ALLOWED_STATUS_BUCKETS, [], None, Sort("idx", Asc), Sequence,
                  st.sessions.selected, [], []))
  }

  ghost predicate Selected(st: State, payload: J.Value, next: State) {
    && next == st.(surface := Sessions, sessions := st.sessions.(selected := next.sessions.selected))
    && exists s :: At(payload, "id", J.Str(s)) && IdRule(s) == Ok(next.sessions.selected)
  }

  ghost predicate ModeSet(d: Decoder, st: State, payload: J.Value, next: State) {
    && next == st.(surface := Sessions, sessions := st.sessions.(viewMode := next.sessions.viewMode))
    && exists v :: ModeAt(payload, v) && d.mode(v) == Some(next.sessions.viewMode)
  }

  function RulesOn(st: State, tab: string): State {
    st.(surface := Rules,
        features := st.features["rules" := FeatureView(Some(tab), ViewOf(st.features, "rules").selectedId)])
  }

  ghost predicate TabOpened(st: State, payload: J.Value, next: State) {
    exists s, t :: At(payload, "tab", J.Str(s)) && IdRule(s) == Ok(Some(t)) && next == RulesOn(st, t)
  }

  /** What each of the six actions does. */
  ghost predicate ActionEffect(d: Decoder, st: State, name: string, payload: J.Value, next: State) {
    if name == "navigation.open_surface" then SurfaceOpened(d, st, payload, next)
    else if name == "sessions.apply_filter" then Filtered(d, st, payload, next) && ValidSessions(next.sessions)
    else if name == "sessions.clear_filter" then Cleared(st, next)
    else if name == "sessions.select" then Selected(st, payload, next)
    else if name == "sessions.set_view_mode" then ModeSet(d, st, payload, next)
    else name == "rules.open_tab" && TabOpened(st, payload, next)
  }

  lemma Found(payload: J.Value, key: string)
    ensures forall v :: Get(payload, key) == Some(v) <==> At(payload, key, v)
    ensures Get(payload, key).Some? ==> At(payload, key, Get(payload, key).value)
  {
    forall v ensures Get(payload, key) == Some(v) <==> At(payload, key, v) { GetExactly(payload, key, v); }
    if Get(payload, key).Some? { GetExactly(payload, key, Get(payload, key).value); }
  }

  lemma OpenSurfaceExactly(d: Decoder, st: State, payload: J.Value, next: State)
    ensures OpenSurface(d, st, payload) == Ok(next) <==> SurfaceOpened(d, st, payload, next)
  {
    Found(payload, "surface");
  }

  lemma ApplyFilterExactly(d: Decoder, st: State, payload: J.Value, next: State)
    ensures ApplyFilter(d, st, payload) == Ok(next) <==>
            Filtered(d, st, payload, next) && ValidSessions(next.sessions)
  {
    var patch := FilterPatch(d, payload);
    if patch.Ok? {
      FilterExactly(d, payload, patch.value);
      SessionsExactly(st.sessions, patch.value, next.sessions);
    }
    forall p | ReadsFilter(d, payload, p) ensures patch == Ok(p) { FilterExactly(d, payload, p); }
  }

  lemma SelectExactly(st: State, payload: J.Value, next: State)
    ensures SelectSession(st, payload) == Ok(next) <==> Selected(st, payload, next)
  {
    Found(payload, "id");
    var id := GetStr(payload, "id");
    if id.Some? { assert At(payload, "id", J.Str(id.value)); }
  }

  lemma ModeExactly(d: Decoder, st: State, payload: J.Value, next: State)
    ensures SetViewMode(d, st, payload) == Ok(next) <==> ModeSet(d, st, payload, next)
  {
    Found(payload, "view_mode");
    Found(payload, "mode");
    var v := if Get(payload, "view_mode").Some? then Get(payload, "view_mode") else Get(payload, "mode");
    if v.Some? { assert ModeAt(payload, v.value); }
  }

  lemma TabExactly(st: State, payload: J.Value, next: State)
    ensures OpenRulesTab(st, payload) == Ok(next) <==> TabOpened(st, payload, next)
  {
    Found(payload, "tab");
    var tab := GetStr(payload, "tab");
    if tab.Some? { assert At(payload, "tab", J.Str(tab.value)); }
  }

  /** An action is carried out on the state exactly when it has its effect. */
  lemma PerformExactly(d: Decoder, st: State, name: string, payload: J.Value, next: State)
    ensures PerformAction(d, st, name, payload) == Ok(next) <==> ActionEffect(d, st, name, payload, next)
  {
    if name == "navigation.open_surface" {
      OpenSurfaceExactly(d, st, payload, next);
    } else if name == "sessions.apply_filter" {
      ApplyFilterExactly(d, st, payload, next);
    } else if name == "sessions.select" {
      SelectExactly(st, payload, next);
    } else if name == "sessions.set_view_mode" {
      ModeExactly(d, st, payload, next);
    } else if name == "rules.open_tab" {
      TabExactly(st, payload, next);
    }
  }

  lemma OnlyTheSix(d: Decoder, st: State, name: string, payload: J.Value)
    ensures PerformAction(d, st, name, payload).Ok? ==> name in ACTIONS
  {
    assert ACTIONS[0] == "navigation.open_surface" && ACTIONS[1] == "sessions.apply_filter";
    assert ACTIONS[2] == "sessions.clear_filter" && ACTIONS[3] == "sessions.select";
    assert ACTIONS[4] == "sessions.set_view_mode" && ACTIONS[5] == "rules.open_tab";
  }

  /** The marks that every accepted action leaves. */
  function Marked(st: State, name: string, actionId: string, now: int): State {
    st.(lastIntent := Some(name), lastActionId := Some(actionId), updatedAt := now,
        version := if st.version < U64_MAX then st.version + 1 else st.version)
  }

  lemma FinishExactly(performed: Result<State>, name: string, actionId: string, now: int, next: State)
    ensures Finish(performed, name, actionId, now) == Ok(next) <==>
            performed.Ok? && next == Marked(performed.value, name, actionId, now) && Valid(next)
  {}

  /** A workspace action gives `next` exactly when `next` is valid and shows the effect of
      the repaired payload, one version later. */
  lemma ActedExactly(d: Decoder, st: State, name: string, payload: J.Value, actionId: string, now: int, next: State)
    ensures Acted(d, st, name, payload, actionId, now) == Ok(next) <==>
            Valid(next) && exists mid :: ActionEffect(d, st, name, PayloadRepair.Repair(payload), mid)
                                         && next == Marked(mid, name, actionId, now)
  {
    var repaired := PayloadRepair.Repair(payload);
    var performed := PerformAction(d, st, name, repaired);
    FinishExactly(performed, name, actionId, now, next);
    OnlyTheSix(d, st, name, repaired);
    if performed.Ok? { PerformExactly(d, st, name, repaired, performed.value); }
    forall mid | ActionEffect(d, st, name, repaired, mid) ensures performed == Ok(mid) {
      PerformExactly(d, st, name, repaired, mid);
    }
  }

  // ----- requests and runs -----

  /** What a request that is accepted on `st` leads to. */
  ghost predicate RequestEffect(d: Decoder, st: State, req: Request, next: State) {
    && Valid(next)
    && match req
       case PatchRequest(base, patch, now) =>
         (base.Some? ==> base.value == st.version) && PatchEffect(st, patch, now, next)
       case ActionRequest(name, payload, id, now) =>
         exists mid :: ActionEffect(d, st, name, PayloadRepair.Repair(payload), mid)
                       && next == Marked(mid, name, id, now)
  }

  /** A request leads to exactly the workspace that shows its effect; where there is no
      such workspace it changes nothing. */
  lemma RequestExactly(d: Decoder, st: State, req: Request, next: State)
    requires req.PatchRequest? ==> KeysOnce(req.patch)
    ensures Outcome(d, st, req) == Ok(next) <==> RequestEffect(d, st, req, next)
    ensures RequestEffect(d, st, req, next) ==> Step(d, st, req) == next
    ensures (forall other :: !RequestEffect(d, st, req, other)) ==> Step(d, st, req) == st
  {
    RequestGives(d, st, req, next);
    if Outcome(d, st, req).Ok? { RequestGives(d, st, req, Outcome(d, st, req).value); }
  }

  lemma RequestGives(d: Decoder, st: State, req: Request, next: State)
    requires req.PatchRequest? ==> KeysOnce(req.patch)
    ensures Outcome(d, st, req) == Ok(next) <==> RequestEffect(d, st, req, next)
  {
    match req
    case PatchRequest(base, patch, now) => PatchedExactly(st, patch, now, next);
    case ActionRequest(name, payload, id, now) => ActedExactly(d, st, name, payload, id, now, next);
  }

  ghost predicate Among(s: seq<string>, allowed: seq<string>) {
    Distinct(s) && forall i :: 0 <= i < |s| ==> s[i] in allowed
  }

  ghost predicate Hosts(s: seq<string>) {
    |s| <= MAX_HOST_FOCUS && Distinct(s) && forall i :: 0 <= i < |s| ==> HostName(s[i])
  }

  predicate IsId(o: Option<string>) {
    o.Some? ==> o.value != "" && Trimmed(o.value) && Utf8Len(o.value) <= MAX_ID_LEN
  }

  /** The limits that the interface relies on. */
  ghost predicate InBounds(st: State) {
    && Utf8Len(st.sessions.query) <= 4096
    && Among(st.sessions.methods, ALLOWED_METHODS) && Among(st.sessions.buckets, ALLOWED_STATUS_BUCKETS)
    && Hosts(st.sessions.hostFocus) && (st.sessions.hostFilter.Some? ==> HostName(st.sessions.hostFilter.value))
    && st.sessions.sort.key in SORT_KEYS && IsId(st.sessions.selected)
    && |st.features| <= 32
    && forall key :: key in st.features ==>
         && key != "" && Utf8Len(key) <= 64
         && (forall c :: c in key ==> 'a' <= c <= 'z' || '0' <= c <= '9' || c in {'_', '-'})
         && IsId(st.features[key].tab) && IsId(st.features[key].selectedId)
  }

  lemma KeptInBounds(v: SessionsView)
    requires NormalSessions(v) && ValidSessions(v)
    ensures Among(v.methods, ALLOWED_METHODS) && Among(v.buckets, ALLOWED_STATUS_BUCKETS) && Hosts(v.hostFocus)
    ensures v.hostFilter.Some? ==> HostName(v.hostFilter.value)
  {
    MethodRuleStable();
    BucketRuleStable();
    HostRuleStable();
    NormalizedIsSettled(MethodRule, v.methods);
    NormalizedIsSettled(BucketRule, v.buckets);
    NormalizedIsSettled(HostRule, v.hostFocus);
    forall i | 0 <= i < |v.hostFocus| ensures HostName(v.hostFocus[i]) {
      HostRuleExactly(v.hostFocus[i], v.hostFocus[i]);
    }
    if v.hostFilter.Some? { HostRuleExactly(v.hostFilter.value, v.hostFilter.value); }
  }

  lemma IdInBounds(o: Option<string>)
    requires NormalizeOptional(IdRule, o) == Ok(o)
    ensures IsId(o)
  {
    if o.Some? { IdRuleExactly(o.value, o.value); }
  }

  /** At every point of every run of patches and actions the workspace is within them. */
  lemma EveryRunInBounds(d: Decoder, now: int, reqs: seq<Request>, i: nat)
    requires i <= |reqs|
    ensures InBounds(Before(d, now, reqs, i))
  {
    var st := Before(d, now, reqs, i);
    EveryRun(d, now, reqs, i);
    KeptInBounds(st.sessions);
    IdInBounds(st.sessions.selected);
    forall key | key in st.features ensures IsId(st.features[key].tab) && IsId(st.features[key].selectedId) {
      IdInBounds(st.features[key].tab);
      IdInBounds(st.features[key].selectedId);
    }
  }
}
