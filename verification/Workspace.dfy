/** The versioned workspace of src/control_plane/workspace.rs: patches with optimistic
    concurrency and named actions, each applied to a copy and swapped in only when it
    succeeds. */
module Workspace {
  import opened Options
  import opened Text
  import opened NormalForms
  import J = Json
  import opened PayloadRepair

  const MAX_QUERY_LEN := 4096
  const MAX_FEATURE_VIEW_COUNT := 32
  const MAX_FEATURE_VIEW_KEY_LEN := 64
  const SORT_KEYS := ["idx", "method", "status", "host", "path", "type", "reqSize", "total", "ts", "protocol"]

  datatype Surface =
    | Sessions | Dashboard | Connections | Compose | Rules | Breakpoints | Mock | Lua | Inspector | Dns
    | Capture | Webhooks | Ca | Settings
  datatype Direction = Asc | Desc
  datatype ViewMode = Sequence | Structure
  datatype Sort = Sort(key: string, dir: Direction)

  datatype SessionsView = SessionsView(
    query: string, regex: bool, methods: seq<string>, buckets: seq<string>, hostFocus: seq<string>,
    hostFilter: Option<string>, sort: Sort, viewMode: ViewMode, selected: Option<string>,
    wireFilter: seq<string>, appFilter: seq<string>)

  datatype FeatureView = FeatureView(tab: Option<string>, selectedId: Option<string>)

  datatype State = State(
    version: nat, surface: Surface, sessions: SessionsView, features: map<string, FeatureView>,
    lastIntent: Option<string>, lastActionId: Option<string>, updatedAt: int)

  // ----- patches -----

  datatype PatchField = Unspecified | Clear | Set(value: string)

  datatype SessionsPatch = SessionsPatch(
    query: Option<string>, regex: Option<bool>, methods: Option<seq<string>>, buckets: Option<seq<string>>,
    hostFocus: Option<seq<string>>, hostFilter: PatchField, sort: Option<Sort>, viewMode: Option<ViewMode>,
    selected: PatchField, wireFilter: Option<seq<string>>, appFilter: Option<seq<string>>)

  datatype FeaturePatch = FeaturePatch(tab: PatchField, selectedId: PatchField)

  /** The feature patches are in key order, each key once. */
  datatype Patch = Patch(
    surface: Option<Surface>, sessions: Option<SessionsPatch>, features: Option<seq<(string, FeaturePatch)>>)

  function Field(rule: Rule, p: PatchField, current: Option<string>): Result<Option<string>> {
    match p
    case Unspecified => Ok(current)
    case Clear => Ok(None)
    case Set(value) => rule(value)
  }

  function ListField(normalize: seq<string> -> Result<seq<string>>, p: Option<seq<string>>, current: seq<string>)
    : Result<seq<string>>
  {
    if p.Some? then normalize(p.value) else Ok(current)
  }

  // ----- validation -----

  predicate ValidKey(key: string) {
    && key != "" && Utf8Len(key) <= MAX_FEATURE_VIEW_KEY_LEN
    && forall c :: c in key ==> 'a' <= c <= 'z' || '0' <= c <= '9' || c == '_' || c == '-'
  }

  predicate ValidSessions(v: SessionsView) {
    && Utf8Len(v.query) <= MAX_QUERY_LEN
    && NormalizeMethods(v.methods).Ok? && NormalizeBuckets(v.buckets).Ok? && NormalizeHosts(v.hostFocus).Ok?
    && NormalizeOptional(HostRule, v.hostFilter).Ok?
    && v.sort.key in SORT_KEYS
    && NormalizeOptional(IdRule, v.selected).Ok?
  }

  predicate ValidFeature(v: FeatureView) {
    NormalizeOptional(IdRule, v.tab).Ok? && NormalizeOptional(IdRule, v.selectedId).Ok?
  }

  /** `WorkspaceState::validate` */
  predicate Valid(st: State) {
    && ValidSessions(st.sessions)
    && |st.features| <= MAX_FEATURE_VIEW_COUNT
    && forall key :: key in st.features ==> ValidKey(key) && ValidFeature(st.features[key])
  }

  // ----- applying a patch -----

  function PatchSessions(v: SessionsView, p: SessionsPatch): Result<SessionsView> {
    var methods := ListField(NormalizeMethods, p.methods, v.methods);
    var buckets := ListField(NormalizeBuckets, p.buckets, v.buckets);
    var hosts := ListField(NormalizeHosts, p.hostFocus, v.hostFocus);
    var filter := Field(HostRule, p.hostFilter, v.hostFilter);
    var selected := Field(IdRule, p.selected, v.selected);
    if methods.Err? then Err(methods.error)
    else if buckets.Err? then Err(buckets.error)
    else if hosts.Err? then Err(hosts.error)
    else if filter.Err? then Err(filter.error)
    else if p.sort.Some? && p.sort.value.key !in SORT_KEYS then Err("unsupported sessions_view.sort.key")
    else if selected.Err? then Err(selected.error)
    else
      var next := SessionsView(
        GetOr(p.query, v.query), GetOr(p.regex, v.regex), methods.value, buckets.value, hosts.value, filter.value,
        GetOr(p.sort, v.sort), GetOr(p.viewMode, v.viewMode), selected.value,
        GetOr(p.wireFilter, v.wireFilter), GetOr(p.appFilter, v.appFilter));
      if ValidSessions(next) then Ok(next) else Err("invalid sessions_view")
  }

  function PatchFeature(v: FeatureView, p: FeaturePatch): Result<FeatureView> {
    var tab := Field(IdRule, p.tab, v.tab);
    var selectedId := Field(IdRule, p.selectedId, v.selectedId);
    if tab.Err? then Err(tab.error)
    else if selectedId.Err? then Err(selectedId.error)
    else
      var next := FeatureView(tab.value, selectedId.value);
      if ValidFeature(next) then Ok(next) else Err("invalid feature view")
  }

  const NO_FEATURE := FeatureView(None, None)

  function PatchFeatures(fs: map<string, FeatureView>, ps: seq<(string, FeaturePatch)>)
    : Result<map<string, FeatureView>>
    decreases |ps|
  {
    if ps == [] then Ok(fs)
    else
      var (key, p) := ps[0];
      if !ValidKey(key) then Err("invalid feature view key")
      else
        var next := PatchFeature(if key in fs then fs[key] else NO_FEATURE, p);
        if next.Err? then Err(next.error) else PatchFeatures(fs[key := next.value], ps[1..])
  }

  function Bump(version: nat): nat { if version < U64_MAX then version + 1 else version }

  /** `WorkspaceState::apply_patch` on a copy. */
  function Patched(st: State, p: Patch, now: int): Result<State> {
    var sessions := if p.sessions.Some? then PatchSessions(st.sessions, p.sessions.value) else Ok(st.sessions);
    if sessions.Err? then Err(sessions.error)
    else if p.features.Some? && |p.features.value| > MAX_FEATURE_VIEW_COUNT then Err("too many feature_views")
    else
      var features := if p.features.Some? then PatchFeatures(st.features, p.features.value) else Ok(st.features);
      if features.Err? then Err(features.error)
      else
        var next := st.(surface := GetOr(p.surface, st.surface), sessions := sessions.value,
                        features := features.value);
        if Valid(next) then Ok(next.(version := Bump(st.version), updatedAt := now)) else Err("invalid workspace")
  }

  // ----- actions -----

  /** How serde reads typed values out of JSON, and how JSON prints as text. */
  datatype Decoder = Decoder(
    surface: J.Value -> Option<Surface>, mode: J.Value -> Option<ViewMode>, sort: J.Value -> Option<Sort>,
    text: J.Value -> string)

  const ACTIONS := [
    "navigation.open_surface", "sessions.apply_filter", "sessions.clear_filter", "sessions.select",
    "sessions.set_view_mode", "rules.open_tab"]

  function FieldOf(fields: seq<J.Field>, key: string): Option<J.Value> {
    if fields == [] then None
    else if fields[0].key == key then Some(fields[0].value)
    else FieldOf(fields[1..], key)
  }

  function Get(payload: J.Value, key: string): Option<J.Value> {
    if payload.Obj? then FieldOf(payload.fields, key) else None
  }

  function GetStr(payload: J.Value, key: string): Option<string> {
    var v := Get(payload, key);
    if v.Some? && v.value.Str? then Some(v.value.s) else None
  }

  function GetBool(payload: J.Value, key: string): Option<bool> {
    var v := Get(payload, key);
    if v.Some? && v.value.Bool? then Some(v.value.b) else None
  }

  function Strings(items: seq<J.Value>): seq<string> {
    if items == [] then []
    else (if items[0].Str? then [items[0].s] else []) + Strings(items[1..])
  }

  function GetStrings(payload: J.Value, key: string): Option<seq<string>> {
    var v := Get(payload, key);
    if v.Some? && v.value.Arr? then Some(Strings(v.value.items)) else None
  }

  function GetPatchField(d: Decoder, payload: J.Value, key: string): PatchField {
    match Get(payload, key)
    case None => Unspecified
    case Some(v) => if v.Null? then Clear else if v.Str? then Set(v.s) else Set(d.text(v))
  }

  function NonNull(o: Option<J.Value>): Option<J.Value> { if o.Some? && o.value.Null? then None else o }

  const DEFAULT_SESSIONS := SessionsView(
    "", false, ALLOWED_METHODS, ALLOWED_STATUS_BUCKETS, [], None, Sort("idx", Asc), Sequence, None, [], [])

  function OpenSurface(d: Decoder, st: State, payload: J.Value): Result<State> {
    var v := Get(payload, "surface");
    if v.None? then Err("navigation.open_surface requires payload.surface")
    else if d.surface(v.value).None? then Err("invalid workspace surface")
    else Ok(st.(surface := d.surface(v.value).value))
  }

  /** The patch that a filter action stands for. */
  function FilterPatch(d: Decoder, payload: J.Value): Result<SessionsPatch> {
    var sort, mode := NonNull(Get(payload, "sort")), NonNull(Get(payload, "view_mode"));
    if sort.Some? && d.sort(sort.value).None? then Err("invalid sessions.apply_filter sort")
    else if mode.Some? && d.mode(mode.value).None? then Err("invalid sessions.apply_filter view_mode")
    else Ok(SessionsPatch(
      GetStr(payload, "query"), GetBool(payload, "regex"), GetStrings(payload, "methods"),
      GetStrings(payload, "status_buckets"), GetStrings(payload, "host_focus"),
      GetPatchField(d, payload, "host_filter"),
      if sort.Some? then d.sort(sort.value) else None, if mode.Some? then d.mode(mode.value) else None,
      GetPatchField(d, payload, "selected_session_id"),
      GetStrings(payload, "wire_filter"), GetStrings(payload, "app_filter")))
  }

  function ApplyFilter(d: Decoder, st: State, payload: J.Value): Result<State> {
    var patch := FilterPatch(d, payload);
    if patch.Err? then Err(patch.error)
    else
      var view := PatchSessions(st.sessions, patch.value);
      if view.Err? then Err(view.error) else Ok(st.(surface := Sessions, sessions := view.value))
  }

  function ClearFilter(st: State): Result<State> {
    Ok(st.(surface := Sessions, sessions := DEFAULT_SESSIONS.(selected := st.sessions.selected)))
  }

  function SelectSession(st: State, payload: J.Value): Result<State> {
    var id := GetStr(payload, "id");
    if id.None? then Err("sessions.select requires payload.id")
    else
      var selected := IdRule(id.value);
      if selected.Err? then Err(selected.error)
      else Ok(st.(surface := Sessions, sessions := st.sessions.(selected := selected.value)))
  }

  function SetViewMode(d: Decoder, st: State, payload: J.Value): Result<State> {
    var v := if Get(payload, "view_mode").Some? then Get(payload, "view_mode") else Get(payload, "mode");
    if v.None? then Err("sessions.set_view_mode requires payload.view_mode")
    else if d.mode(v.value).None? then Err("invalid sessions view_mode")
    else Ok(st.(surface := Sessions, sessions := st.sessions.(viewMode := d.mode(v.value).value)))
  }

  function OpenRulesTab(st: State, payload: J.Value): Result<State> {
    var tab := GetStr(payload, "tab");
    if tab.None? then Err("rules.open_tab requires payload.tab")
    else
      var id := IdRule(tab.value);
      if id.Err? then Err(id.error)
      else if id.value.None? then Err("rules.open_tab requires a non-empty tab")
      else
        var view := if "rules" in st.features then st.features["rules"] else NO_FEATURE;
        Ok(st.(surface := Rules, features := st.features["rules" := view.(tab := id.value)]))
  }

  function PerformAction(d: Decoder, st: State, name: string, payload: J.Value): Result<State> {
    if name == "navigation.open_surface" then OpenSurface(d, st, payload)
    else if name == "sessions.apply_filter" then ApplyFilter(d, st, payload)
    else if name == "sessions.clear_filter" then ClearFilter(st)
    else if name == "sessions.select" then SelectSession(st, payload)
    else if name == "sessions.set_view_mode" then SetViewMode(d, st, payload)
    else if name == "rules.open_tab" then OpenRulesTab(st, payload)
    else Err("declared but has no executor")
  }

  /** The end of every action: it is recorded, and the result must be valid. */
  function Finish(performed: Result<State>, name: string, actionId: string, now: int): Result<State> {
    if performed.Err? then performed
    else
      var done := performed.value.(lastIntent := Some(name), lastActionId := Some(actionId),
                                   version := Bump(performed.value.version), updatedAt := now);
      if Valid(done) then Ok(done) else Err("invalid workspace")
  }

  /** `apply_workspace_action`: the payload is repaired first. */
  function Acted(d: Decoder, st: State, name: string, payload: J.Value, actionId: string, now: int): Result<State> {
    if name !in ACTIONS then Err("workspace action is not allowlisted")
    else Finish(PerformAction(d, st, name, Repair(payload)), name, actionId, now)
  }

  // ----- the server -----

  datatype Request =
    | PatchRequest(baseVersion: Option<nat>, patch: Patch, now: int)
    | ActionRequest(name: string, payload: J.Value, actionId: string, now: int)

  /** The outcome of one request on the shared state: an error leaves it as it is. */
  function Outcome(d: Decoder, st: State, req: Request): Result<State> {
    match req
    case PatchRequest(base, patch, now) =>
      if base.Some? && base.value != st.version then Err("workspace version conflict") else Patched(st, patch, now)
    case ActionRequest(name, payload, actionId, now) => Acted(d, st, name, payload, actionId, now)
  }

  function Step(d: Decoder, st: State, req: Request): State {
    var r := Outcome(d, st, req);
    if r.Ok? then r.value else st
  }

  const DEFAULT_FEATURES := map[
    "rules" := FeatureView(Some("rules"), None),
    "mock" := FeatureView(Some("rules"), None),
    "dns" := NO_FEATURE]

  function Default(now: int): State {
    State(1, Sessions, DEFAULT_SESSIONS, DEFAULT_FEATURES, None, None, now)
  }

  /** A workspace whose fields are updated one after the other. */
  class WorkspaceCell {
    var state: State

    constructor (initial: State)
      ensures state == initial
    {
      state := initial;
    }

    method PatchFeatureViews(ps: seq<(string, FeaturePatch)>) returns (ok: bool)
      modifies this
      ensures ok <==> PatchFeatures(old(state).features, ps).Ok?
      ensures ok ==> state == old(state).(features := PatchFeatures(old(state).features, ps).value)
    {
      assert ps[0..] == ps;
      for i := 0 to |ps|
        invariant state == old(state).(features := state.features)
        invariant PatchFeatures(old(state).features, ps) == PatchFeatures(state.features, ps[i..])
      {
        var (key, patch) := ps[i];
        assert ps[i..][1..] == ps[i + 1..];
        if !ValidKey(key) { return false; }
        var view := PatchFeature(if key in state.features then state.features[key] else NO_FEATURE, patch);
        if view.Err? { return false; }
        state := state.(features := state.features[key := view.value]);
      }
      ok := true;
    }

    /** On an error the cell is left half patched; the caller drops it. */
    method ApplyPatch(p: Patch, now: int) returns (ok: bool)
      modifies this
      ensures ok <==> Patched(old(state), p, now).Ok?
      ensures ok ==> Ok(state) == Patched(old(state), p, now)
    {
      if p.surface.Some? { state := state.(surface := p.surface.value); }
      if p.sessions.Some? {
        var view := PatchSessions(state.sessions, p.sessions.value);
        if view.Err? { return false; }
        state := state.(sessions := view.value);
      }
      if p.features.Some? {
        if |p.features.value| > MAX_FEATURE_VIEW_COUNT { return false; }
        var patched := PatchFeatureViews(p.features.value);
        if !patched { return false; }
      }
      if !Valid(state) { return false; }
      state := state.(version := Bump(state.version), updatedAt := now);
      ok := true;
    }
  }

  class WorkspaceServer {
    var workspace: WorkspaceCell

    constructor (now: int)
      ensures fresh(workspace) && workspace.state == Default(now)
    {
      workspace := new WorkspaceCell(Default(now));
    }

    /** `patch_workspace` under the write lock. */
    method PatchWorkspace(d: Decoder, baseVersion: Option<nat>, patch: Patch, now: int) returns (ok: bool)
      modifies this
      ensures workspace.state == Step(d, old(workspace.state), PatchRequest(baseVersion, patch, now))
      ensures ok <==> Outcome(d, old(workspace.state), PatchRequest(baseVersion, patch, now)).Ok?
    {
      if baseVersion.Some? && baseVersion.value != workspace.state.version { return false; }
      var next := new WorkspaceCell(workspace.state);
      ok := next.ApplyPatch(patch, now);
      if ok { workspace := next; }
    }

    /** `apply_workspace_action` under the write lock. */
    method ExecuteAction(d: Decoder, name: string, payload: J.Value, actionId: string, now: int) returns (ok: bool)
      modifies this
      ensures workspace.state == Step(d, old(workspace.state), ActionRequest(name, payload, actionId, now))
      ensures ok <==> Outcome(d, old(workspace.state), ActionRequest(name, payload, actionId, now)).Ok?
    {
      var repaired := RepairAssistantPayload(payload);
      if name !in ACTIONS { return false; }
      var performed := PerformAction(d, workspace.state, name, repaired);
      if performed.Err? { return false; }
      var next := new WorkspaceCell(performed.value);
      next.state := next.state.(lastIntent := Some(name), lastActionId := Some(actionId),
                                version := Bump(next.state.version), updatedAt := now);
      if !Valid(next.state) { return false; }
      workspace := next;
      ok := true;
    }
  }
}
