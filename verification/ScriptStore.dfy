/** The script list and its file: every writer keeps the write lock across its
    save (src/control_plane/extensions.rs, src/control_plane/assistant_actions.rs).
    Handlers interleave with each other and with the saves of other files. */
module ScriptStore {
  import opened Options
  import opened Items
  import Disk = AtomicStorage

  type Script = Item

  /** One request; `freshId` is the UUID the handler draws. */
  datatype Request =
    | CreateByUser(script: Script, freshId: string)
    | CreateByAssistant(script: Script, freshId: string)
    | UpdateByUser(id: string, script: Script)
    | UpdateByAssistant(id: string, script: Script)
    | Delete(id: string)

  datatype Lock = Free | Held(task: nat) | Saving(task: nat) | Saved(task: nat)

  datatype State = State(disk: Disk.State, memory: seq<Script>, lock: Lock, lastSave: Option<bool>)

  datatype Step =
    | Acquire(task: nat)
    | Serve(request: Request)
    | DiskStep(step: Disk.Step)
    | Release
    | Restart

  /** Where the list is stored and how it is written and read as JSON text. */
  datatype Format = Format(path: Disk.Path, encode: seq<Script> -> string, decode: string -> Option<seq<Script>>)

  // ----- the requests on the list -----

  /** The new list, or None when the request names no stored script. */
  function Perform(scripts: seq<Script>, request: Request): Option<seq<Script>> {
    match request
    case CreateByUser(script, freshId) => Some(scripts + [script.(id := freshId)])
    case CreateByAssistant(script, freshId) =>
      Some(scripts + [if script.id == "" then script.(id := freshId) else script])
    case UpdateByUser(id, script) => if HasId(scripts, id) then Some(ReplaceFirst(scripts, id, script)) else None
    case UpdateByAssistant(id, script) =>
      if HasId(scripts, id) then Some(ReplaceFirst(scripts, id, script.(id := id))) else None
    case Delete(id) =>
      var kept := Without(scripts, id);
      if |kept| < |scripts| then Some(kept) else None
  }

  /** What a request must bring for ids to stay unique. A user's update stores the id of
      its body, and an assistant's create keeps an id it is given. */
  predicate BringsFreeId(scripts: seq<Script>, request: Request) {
    match request
    case CreateByUser(_, freshId) => !HasId(scripts, freshId)
    case CreateByAssistant(script, freshId) => !HasId(scripts, if script.id == "" then freshId else script.id)
    case UpdateByUser(id, script) => script.id == id || !HasId(scripts, script.id)
    case _ => true
  }

  /** A request that is carried out keeps ids unique exactly when the id it stores is free. */
  lemma RequestKeepsUnique(scripts: seq<Script>, request: Request)
    requires UniqueIds(scripts) && Perform(scripts, request).Some?
    ensures UniqueIds(Perform(scripts, request).value) <==> BringsFreeId(scripts, request)
  {
    match request
    case CreateByUser(script, freshId) => AppendKeepsUnique(scripts, script.(id := freshId));
    case CreateByAssistant(script, freshId) =>
      AppendKeepsUnique(scripts, if script.id == "" then script.(id := freshId) else script);
    case UpdateByUser(id, script) => OverwriteKeepsUnique(scripts, id, script);
    case UpdateByAssistant(id, script) => OverwriteKeepsUnique(scripts, id, script.(id := id));
    case Delete(id) => WithoutUnique(scripts, id);
  }

  /** What each request promises: a create adds the script under the id it stores, an
      update overwrites the first script with the path's id, and a delete takes away
      every script with it. A user's update stores its body as it is. */
  ghost predicate Effect(before: seq<Script>, request: Request, after: seq<Script>) {
    match request
    case CreateByUser(script, freshId) => Appended(before, freshId, script.body, after)
    case CreateByAssistant(script, freshId) =>
      Appended(before, if script.id == "" then freshId else script.id, script.body, after)
    case UpdateByUser(id, script) => HasId(before, id) && Overwritten(before, id, script, after)
    case UpdateByAssistant(id, script) => HasId(before, id) && Overwritten(before, id, Item(id, script.body), after)
    case Delete(id) => HasId(before, id) && Deleted(before, id, after)
  }

  /** A request has exactly its effect on the list, and is refused exactly when it names
      no stored script. */
  lemma RequestHasItsEffect(scripts: seq<Script>, request: Request, after: seq<Script>)
    ensures Perform(scripts, request) == Some(after) <==> Effect(scripts, request, after)
    ensures Perform(scripts, request).None? <==>
            !request.CreateByUser? && !request.CreateByAssistant? && !HasId(scripts, request.id)
  {
    match request
    case CreateByUser(script, freshId) => AppendExactly(scripts, script.(id := freshId), after);
    case CreateByAssistant(script, freshId) =>
      AppendExactly(scripts, if script.id == "" then script.(id := freshId) else script, after);
    case UpdateByUser(id, script) =>
      if HasId(scripts, id) { ReplaceFirstExactly(scripts, id, script, after); }
    case UpdateByAssistant(id, script) =>
      if HasId(scripts, id) { ReplaceFirstExactly(scripts, id, script.(id := id), after); }
    case Delete(id) =>
      WithoutExactly(scripts, id, after);
      WithoutShrinks(scripts, id);
  }

  /** `load_json`: a missing or unreadable file is the empty list. */
  function Load(f: Format, files: map<Disk.Path, string>): seq<Script> {
    if f.path in files && f.decode(files[f.path]).Some? then f.decode(files[f.path]).value else []
  }

  // ----- the interleaved system -----

  predicate Enabled(f: Format, st: State, step: Step) {
    match step
    case Acquire(task) => st.lock.Free? && task !in st.disk.inFlight
    case Serve(request) => st.lock.Held? && st.lock.task !in st.disk.inFlight
    case DiskStep(d) => Disk.Enabled(st.disk, d) && !d.Crash? && (d.Begin? ==> d.target != f.path)
    case Release => st.lock.Saved?
    case Restart => true
  }

  /** The end of a save is seen by the handler that waits for it. */
  function AfterDisk(st: State, d: Disk.Step): State
    requires Disk.Enabled(st.disk, d)
  {
    var next := st.(disk := Disk.Apply(st.disk, d));
    if (d.Rename? || d.Fail?) && st.lock == Saving(d.task)
    then next.(lock := Saved(d.task), lastSave := Some(d.Rename?))
    else next
  }

  function Apply(f: Format, st: State, step: Step): State
    requires Enabled(f, st, step) && Disk.IsTarget(f.path)
  {
    match step
    case Acquire(task) => st.(lock := Held(task))
    case Serve(request) =>
      (match Perform(st.memory, request)
       case None => st.(lock := Free)
       case Some(list) =>
         st.(memory := list, lock := Saving(st.lock.task),
             disk := Disk.Apply(st.disk, Disk.Begin(st.lock.task, f.path, f.encode(list)))))
    case DiskStep(d) => AfterDisk(st, d)
    case Release => st.(lock := Free)
    case Restart =>
      State(Disk.Apply(st.disk, Disk.Crash), Load(f, st.disk.files), Free, None)
  }

  /** A request that is carried out leaves the new list in memory and its text in the
      save that has begun; any other leaves both alone and the lock free. */
  lemma ServeStep(f: Format, st: State, request: Request)
    requires Disk.IsTarget(f.path) && Enabled(f, st, Serve(request))
    ensures var next, task := Apply(f, st, Serve(request)), st.lock.task;
            if exists after :: Effect(st.memory, request, after) then
              && Effect(st.memory, request, next.memory) && next.lock == Saving(task)
              && task in next.disk.inFlight && next.disk.inFlight[task].target == f.path
              && next.disk.inFlight[task].contents == f.encode(next.memory)
            else next == st.(lock := Free)
  {
    if Perform(st.memory, request).Some? {
      RequestHasItsEffect(st.memory, request, Perform(st.memory, request).value);
    } else if after :| Effect(st.memory, request, after) {
      RequestHasItsEffect(st.memory, request, after);
      assert false;
    }
  }

  // ----- runs -----

  ghost predicate ValidRun(f: Format, st: State, steps: seq<Step>)
    requires Disk.IsTarget(f.path)
    decreases |steps|
  {
    steps == [] ||
    (Enabled(f, st, steps[0]) && Disk.NoLap(st.disk) && ValidRun(f, Apply(f, st, steps[0]), steps[1..]))
  }

  ghost function Final(f: Format, st: State, steps: seq<Step>): State
    requires Disk.IsTarget(f.path) && ValidRun(f, st, steps)
    decreases |steps|
  {
    if steps == [] then st else Final(f, Apply(f, st, steps[0]), steps[1..])
  }

  function Boot(f: Format, files: map<Disk.Path, string>): State {
    State(Disk.Boot(files), Load(f, files), Free, None)
  }

  // ----- the invariant -----

  ghost predicate Synced(f: Format, st: State) {
    f.path in st.disk.files && st.disk.files[f.path] == f.encode(st.memory)
  }

  ghost predicate OwnSave(f: Format, st: State, t: nat) {
    t in st.disk.inFlight && st.disk.inFlight[t].target == f.path && st.disk.inFlight[t].contents == f.encode(st.memory)
  }

  ghost predicate Inv(f: Format, st: State, initial: map<Disk.Path, string>) {
    && Disk.Inv(st.disk, initial)
    && (forall t :: t in st.disk.inFlight && st.disk.inFlight[t].target == f.path ==> st.lock == Saving(t))
    && (st.lock.Saving? ==> OwnSave(f, st, st.lock.task))
    && (!st.lock.Saving? && st.lastSave == Some(true) ==> Synced(f, st))
  }

  lemma DiskStepKeepsInv(f: Format, st: State, d: Disk.Step, initial: map<Disk.Path, string>)
    requires Disk.IsTarget(f.path) && Inv(f, st, initial) && Disk.NoLap(st.disk)
    requires Enabled(f, st, DiskStep(d))
    ensures Inv(f, AfterDisk(st, d), initial)
  {
    Disk.StepKeepsInv(st.disk, d, initial);
    if d.Rename? && st.disk.inFlight[d.task].target == f.path {
      Disk.RenamePublishes(st.disk, initial, d.task);
    } else {
      Disk.OnlyRenameChanges(st.disk, initial, d, f.path);
    }
  }

  lemma StepKeepsInv(f: Format, st: State, step: Step, initial: map<Disk.Path, string>)
    requires Disk.IsTarget(f.path) && Inv(f, st, initial) && Disk.NoLap(st.disk) && Enabled(f, st, step)
    ensures Inv(f, Apply(f, st, step), initial)
  {
    match step
    case Acquire(task) =>
    case Serve(request) =>
      match Perform(st.memory, request) {
        case None =>
        case Some(list) =>
          Disk.StepKeepsInv(st.disk, Disk.Begin(st.lock.task, f.path, f.encode(list)), initial);
      }
    case DiskStep(d) => DiskStepKeepsInv(f, st, d, initial);
    case Release =>
    case Restart => Disk.StepKeepsInv(st.disk, Disk.Crash, initial);
  }

  lemma {:induction false} RunKeepsInv(f: Format, st: State, steps: seq<Step>, initial: map<Disk.Path, string>)
    requires Disk.IsTarget(f.path) && Inv(f, st, initial) && ValidRun(f, st, steps)
    ensures Inv(f, Final(f, st, steps), initial)
    decreases |steps|
  {
    if steps != [] {
      StepKeepsInv(f, st, steps[0], initial);
      RunKeepsInv(f, Apply(f, st, steps[0]), steps[1..], initial);
    }
  }

  /** In every interleaving, whenever the lock is free and the latest save
      succeeded, the file is the in-memory list, and loading it gives that list. */
  lemma DiskFollowsMemory(f: Format, initial: map<Disk.Path, string>, steps: seq<Step>)
    requires Disk.IsTarget(f.path) && ValidRun(f, Boot(f, initial), steps)
    requires forall list :: f.decode(f.encode(list)) == Some(list)
    ensures var st := Final(f, Boot(f, initial), steps);
            st.lock.Free? && st.lastSave == Some(true) ==> Synced(f, st) && Load(f, st.disk.files) == st.memory
  {
    RunKeepsInv(f, Boot(f, initial), steps, initial);
  }

  /** The lists that requests have saved in a run. */
  ghost function Served(f: Format, st: State, steps: seq<Step>): set<seq<Script>>
    requires Disk.IsTarget(f.path) && ValidRun(f, st, steps)
    decreases |steps|
  {
    if steps == [] then {}
    else Saves(st, steps[0]) + Served(f, Apply(f, st, steps[0]), steps[1..])
  }

  /** The list that one step begins to save, if it does. */
  ghost function Saves(st: State, step: Step): set<seq<Script>> {
    if step.Serve? && Perform(st.memory, step.request).Some? then {Perform(st.memory, step.request).value} else {}
  }

  ghost predicate EncodesOneOf(f: Format, lists: set<seq<Script>>, contents: string) {
    exists list :: list in lists && contents == f.encode(list)
  }

  lemma StepMakes(f: Format, st: State, step: Step, contents: string)
    requires Disk.IsTarget(f.path) && Enabled(f, st, step)
    requires (f.path, contents) in Apply(f, st, step).disk.made
    ensures (f.path, contents) in st.disk.made || EncodesOneOf(f, Saves(st, step), contents)
  {
    if step.Serve? && Perform(st.memory, step.request).Some? {
      assert Perform(st.memory, step.request).value in Saves(st, step);
    }
  }

  /** Whatever a run saves to the script file is the text of a list that a request of
      the run produced. */
  lemma {:induction false} OnlyServedIsSaved(f: Format, st: State, steps: seq<Step>, contents: string)
    requires Disk.IsTarget(f.path) && ValidRun(f, st, steps)
    requires (f.path, contents) in Final(f, st, steps).disk.made
    ensures (f.path, contents) in st.disk.made || EncodesOneOf(f, Served(f, st, steps), contents)
    decreases |steps|
  {
    if steps != [] {
      var next := Apply(f, st, steps[0]);
      OnlyServedIsSaved(f, next, steps[1..], contents);
      if (f.path, contents) in next.disk.made {
        StepMakes(f, st, steps[0], contents);
        if EncodesOneOf(f, Saves(st, steps[0]), contents) {
          var list :| list in Saves(st, steps[0]) && contents == f.encode(list);
          assert list in Served(f, st, steps);
        }
      } else {
        var list :| list in Served(f, next, steps[1..]) && contents == f.encode(list);
        assert list in Served(f, st, steps);
      }
    }
  }

  /** The stored file is never a mixture: it is as it was at boot, or the text of
      a list that a request of the run produced. */
  lemma StoredListIsWhole(f: Format, initial: map<Disk.Path, string>, steps: seq<Step>)
    requires Disk.IsTarget(f.path) && ValidRun(f, Boot(f, initial), steps)
    ensures var files := Final(f, Boot(f, initial), steps).disk.files;
            || (f.path !in files && f.path !in initial)
            || (f.path in files && f.path in initial && files[f.path] == initial[f.path])
            || (f.path in files && EncodesOneOf(f, Served(f, Boot(f, initial), steps), files[f.path]))
  {
    var st := Final(f, Boot(f, initial), steps);
    RunKeepsInv(f, Boot(f, initial), steps, initial);
    assert Disk.Whole(st.disk, initial, f.path);
    if f.path in st.disk.files && (f.path, st.disk.files[f.path]) in st.disk.made {
      OnlyServedIsSaved(f, Boot(f, initial), steps, st.disk.files[f.path]);
    }
  }

  /** The requests that a run serves, in order. */
  function Requests(steps: seq<Step>): seq<Request> {
    if steps == [] then []
    else (if steps[0].Serve? then [steps[0].request] else []) + Requests(steps[1..])
  }

  /** `after` is what the requests make of `before`, one after the other; those that name
      no stored script change nothing. */
  ghost predicate Effects(before: seq<Script>, requests: seq<Request>, after: seq<Script>)
    decreases |requests|
  {
    if requests == [] then after == before
    else if exists mid :: Effect(before, requests[0], mid) then
      exists mid :: Effect(before, requests[0], mid) && Effects(mid, requests[1..], after)
    else Effects(before, requests[1..], after)
  }

  /** However the saves are interleaved, the list in memory is what the requests of the
      run made of it. */
  lemma {:induction false} MemoryFollowsRequests(f: Format, st: State, steps: seq<Step>)
    requires Disk.IsTarget(f.path) && ValidRun(f, st, steps)
    requires forall k :: 0 <= k < |steps| ==> !steps[k].Restart?
    ensures Effects(st.memory, Requests(steps), Final(f, st, steps).memory)
    decreases |steps|
  {
    if steps != [] {
      var next, rest := Apply(f, st, steps[0]), steps[1..];
      assert forall k :: 0 <= k < |rest| ==> rest[k] == steps[k + 1];
      MemoryFollowsRequests(f, next, rest);
      if steps[0].Serve? {
        ServeStep(f, st, steps[0].request);
        assert Requests(steps)[1..] == Requests(rest);
      } else {
        assert Requests(steps) == Requests(rest);
      }
    }
  }
}
