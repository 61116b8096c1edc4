/** The write-temp-then-rename protocol of src/storage.rs as a transition system.
    Any number of saves are in flight; each step of each save, each failure and
    each crash of the process may come at any point. */
module AtomicStorage {

  import opened Options
  import opened Numerals

  datatype Path = Path(dir: string, file: string)

  /** Where one call of `write_atomic` stands. `ticket` counts the calls of this
      process; the counter the source reads is the ticket modulo 2^64. */
  datatype Phase = Ticketed | Writing(written: nat) | Written
  datatype Save = Save(target: Path, contents: string, ticket: nat, phase: Phase)

  /** `tickets` is the number of saves begun by this process; `made` records every
      save ever begun, across crashes. */
  datatype State = State(
    tickets: nat, files: map<Path, string>, inFlight: map<nat, Save>, made: set<(Path, string)>)

  datatype Step =
    | Begin(task: nat, target: Path, contents: string)
    | Open(task: nat)
    | Write(task: nat, upTo: nat)
    | WriteDone(task: nat)
    | Rename(task: nat)
    | Fail(task: nat)
    | Crash

  // ----- temp file names -----

  function TempName(file: string, n: nat): string {
    "." + file + "." + Decimal(n) + ".tmp"
  }

  /** The hidden sibling file that save number `ticket` writes to. */
  function TempPath(target: Path, ticket: nat): Path {
    Path(target.dir, TempName(target.file, ticket % U64_LIMIT))
  }

  function TempOf(s: Save): Path { TempPath(s.target, s.ticket) }

  /** Stored files are the fixed names of src/storage.rs; none is hidden. */
  predicate IsTarget(p: Path) { p.file != "" && p.file[0] != '.' }

  // ----- steps -----

  /** Bytes written at offset `at`; a gap left by somebody else reads as NUL. */
  function WriteAt(held: string, at: nat, chunk: string): string {
    var base := if |held| < at then held + seq(at - |held|, _ => '\0') else held;
    base[..at] + chunk + if at + |chunk| < |base| then base[at + |chunk|..] else ""
  }

  predicate Enabled(st: State, step: Step) {
    match step
    case Begin(task, target, _) => task !in st.inFlight && IsTarget(target)
    case Open(task) => task in st.inFlight && st.inFlight[task].phase.Ticketed?
    case Write(task, upTo) =>
      && task in st.inFlight && st.inFlight[task].phase.Writing?
      && TempOf(st.inFlight[task]) in st.files
      && st.inFlight[task].phase.written < upTo <= |st.inFlight[task].contents|
    case WriteDone(task) =>
      && task in st.inFlight && st.inFlight[task].phase.Writing?
      && st.inFlight[task].phase.written == |st.inFlight[task].contents|
    case Rename(task) =>
      && task in st.inFlight && st.inFlight[task].phase.Written?
      && TempOf(st.inFlight[task]) in st.files
    case Fail(task) => task in st.inFlight
    case Crash => true
  }

  function Apply(st: State, step: Step): State
    requires Enabled(st, step)
  {
    match step
    case Begin(task, target, contents) =>
      st.(tickets := st.tickets + 1,
          inFlight := st.inFlight[task := Save(target, contents, st.tickets, Ticketed)],
          made := st.made + {(target, contents)})
    case Open(task) =>
      var s := st.inFlight[task];
      st.(files := st.files[TempOf(s) := ""],
          inFlight := st.inFlight[task := s.(phase := Writing(0))])
    case Write(task, upTo) =>
      var s := st.inFlight[task];
      var chunk := s.contents[s.phase.written..upTo];
      st.(files := st.files[TempOf(s) := WriteAt(st.files[TempOf(s)], s.phase.written, chunk)],
          inFlight := st.inFlight[task := s.(phase := Writing(upTo))])
    case WriteDone(task) =>
      st.(inFlight := st.inFlight[task := st.inFlight[task].(phase := Written)])
    case Rename(task) =>
      var s := st.inFlight[task];
      st.(files := (st.files - {TempOf(s)})[s.target := st.files[TempOf(s)]],
          inFlight := st.inFlight - {task})
    case Fail(task) => st.(inFlight := st.inFlight - {task})
    case Crash => st.(tickets := 0, inFlight := map[])
  }

  /** No save is still in flight when the 64-bit counter comes round to its number. */
  ghost predicate NoLap(st: State) {
    forall t :: t in st.inFlight ==> st.tickets - st.inFlight[t].ticket < U64_LIMIT
  }

  function Boot(files: map<Path, string>): State { State(0, files, map[], {}) }

  ghost predicate ValidRun(st: State, steps: seq<Step>)
    decreases |steps|
  {
    steps == [] ||
    (Enabled(st, steps[0]) && (steps[0].Begin? ==> NoLap(st)) && ValidRun(Apply(st, steps[0]), steps[1..]))
  }

  ghost function Final(st: State, steps: seq<Step>): State
    requires ValidRun(st, steps)
    decreases |steps|
  {
    if steps == [] then st else Final(Apply(st, steps[0]), steps[1..])
  }

  // ----- what every step keeps -----

  /** What the save's temp file holds at its phase. */
  ghost predicate TempHolds(st: State, s: Save) {
    match s.phase
    case Ticketed => true
    case Writing(n) => n <= |s.contents| && TempOf(s) in st.files && st.files[TempOf(s)] == s.contents[..n]
    case Written => TempOf(s) in st.files && st.files[TempOf(s)] == s.contents
  }

  ghost predicate DistinctTemps(st: State) {
    forall a, b :: a in st.inFlight && b in st.inFlight && a != b ==>
      TempOf(st.inFlight[a]) != TempOf(st.inFlight[b])
  }

  ghost predicate DistinctTickets(st: State) {
    forall a, b :: a in st.inFlight && b in st.inFlight && a != b ==>
      st.inFlight[a].ticket != st.inFlight[b].ticket
  }

  /** The stored file is as it was at the start, or holds one whole save made to it. */
  ghost predicate Whole(st: State, initial: map<Path, string>, p: Path) {
    || (p !in st.files && p !in initial)
    || (p in st.files && p in initial && st.files[p] == initial[p])
    || (p in st.files && (p, st.files[p]) in st.made)
  }

  ghost predicate InFlightOk(st: State, s: Save) {
    IsTarget(s.target) && s.ticket < st.tickets && (s.target, s.contents) in st.made && TempHolds(st, s)
  }

  ghost predicate Inv(st: State, initial: map<Path, string>) {
    && (forall t :: t in st.inFlight ==> InFlightOk(st, st.inFlight[t]))
    && DistinctTickets(st) && DistinctTemps(st)
    && (forall p :: IsTarget(p) ==> Whole(st, initial, p))
  }

  // ----- temp names do not clash -----

  lemma LastDot(a: string, digits: string)
    requires forall c :: c in digits ==> '0' <= c <= '9'
    ensures var s := a + "." + digits;
            s[|a|] == '.' && s[..|a|] == a && s[|a| + 1..] == digits &&
            forall k :: |a| < k < |s| ==> s[k] != '.'
  {
    var s := a + "." + digits;
    forall k | |a| < k < |s| ensures s[k] != '.' {
      assert s[k] == digits[k - |a| - 1];
      assert digits[k - |a| - 1] in digits;
    }
  }

  /** The number is the part between the last two dots. */
  lemma TempNameInjective(f: string, m: nat, g: string, n: nat)
    requires TempName(f, m) == TempName(g, n)
    ensures f == g && m == n
  {
    var a, b := "." + f, "." + g;
    DecimalDigits(m);
    DecimalDigits(n);
    LastDot(a, Decimal(m));
    LastDot(b, Decimal(n));
    var s, t := a + "." + Decimal(m), b + "." + Decimal(n);
    assert s == TempName(f, m)[..|s|] && t == TempName(g, n)[..|t|];
    assert s == t && |a| == |b|;
    DecimalInjective(m, n);
    assert a[1..] == f && b[1..] == g;
  }

  /** Two saves to one file share a temp file exactly when the counter has gone
      all the way round between them. */
  lemma SharedTemp(p: Path, a: nat, b: nat)
    ensures TempPath(p, a) == TempPath(p, b) <==> a % U64_LIMIT == b % U64_LIMIT
  {
    if TempPath(p, a) == TempPath(p, b) {
      TempNameInjective(p.file, a % U64_LIMIT, p.file, b % U64_LIMIT);
    }
  }

  lemma TempIsHidden(p: Path, n: nat)
    ensures !IsTarget(TempPath(p, n))
  {}

  lemma SmallModulo(a: nat, b: nat)
    requires a < b && b - a < U64_LIMIT
    ensures a % U64_LIMIT != b % U64_LIMIT
  {}

  // ----- preservation -----

  lemma NewTempIsFree(st: State, initial: map<Path, string>, target: Path)
    requires Inv(st, initial) && NoLap(st)
    ensures forall t :: t in st.inFlight ==> TempOf(st.inFlight[t]) != TempPath(target, st.tickets)
  {
    forall t | t in st.inFlight
      ensures TempOf(st.inFlight[t]) != TempPath(target, st.tickets)
    {
      var s := st.inFlight[t];
      SmallModulo(s.ticket, st.tickets);
      if TempOf(s) == TempPath(target, st.tickets) {
        TempNameInjective(s.target.file, s.ticket % U64_LIMIT, target.file, st.tickets % U64_LIMIT);
      }
    }
  }

  lemma WriteExtends(contents: string, at: nat, upTo: nat)
    requires at <= upTo <= |contents|
    ensures WriteAt(contents[..at], at, contents[at..upTo]) == contents[..upTo]
  {}

  ghost predicate SameBut(st: State, st': State, temp: Path) {
    forall p :: p != temp ==> (p in st'.files <==> p in st.files) && (p in st.files ==> st'.files[p] == st.files[p])
  }

  lemma OthersHold(st: State, st': State, s: Save, other: Save)
    requires SameBut(st, st', TempOf(s)) && TempOf(other) != TempOf(s) && TempHolds(st, other)
    ensures TempHolds(st', other)
  {}

  /** Files that a step leaves alone stay whole. */
  lemma StayWhole(st: State, st': State, temp: Path, initial: map<Path, string>)
    requires SameBut(st, st', temp) && !IsTarget(temp) && st.made <= st'.made
    requires forall p :: IsTarget(p) ==> Whole(st, initial, p)
    ensures forall p :: IsTarget(p) ==> Whole(st', initial, p)
  {
    forall p | IsTarget(p) ensures Whole(st', initial, p) {
      assert Whole(st, initial, p);
    }
  }

  ghost predicate SameNumbers(st: State, st': State) {
    forall t :: t in st'.inFlight ==>
      && t in st.inFlight
      && st'.inFlight[t].target == st.inFlight[t].target
      && st'.inFlight[t].ticket == st.inFlight[t].ticket
  }

  lemma StayDistinct(st: State, st': State)
    requires SameNumbers(st, st') && DistinctTickets(st) && DistinctTemps(st)
    ensures DistinctTickets(st') && DistinctTemps(st')
  {
    assert forall t :: t in st'.inFlight ==> TempOf(st'.inFlight[t]) == TempOf(st.inFlight[t]);
  }

  /** A save that writes only its own temp file disturbs nobody. */
  lemma OwnTempWrite(st: State, st': State, task: nat, phase: Phase, initial: map<Path, string>)
    requires Inv(st, initial) && task in st.inFlight
    requires var s := st.inFlight[task];
             && st'.tickets == st.tickets && st'.made == st.made
             && st'.inFlight == st.inFlight[task := s.(phase := phase)]
             && SameBut(st, st', TempOf(s))
             && TempHolds(st', s.(phase := phase))
    ensures Inv(st', initial)
  {
    var s := st.inFlight[task];
    TempIsHidden(s.target, s.ticket);
    StayWhole(st, st', TempOf(s), initial);
    StayDistinct(st, st');
    forall t | t in st'.inFlight ensures InFlightOk(st', st'.inFlight[t]) {
      assert InFlightOk(st, st.inFlight[t]);
      if t != task { OthersHold(st, st', s, st.inFlight[t]); }
    }
  }

  lemma BeginKeepsInv(st: State, task: nat, target: Path, contents: string, initial: map<Path, string>)
    requires Inv(st, initial) && NoLap(st) && Enabled(st, Begin(task, target, contents))
    ensures Inv(Apply(st, Begin(task, target, contents)), initial)
  {
    var st' := Apply(st, Begin(task, target, contents));
    NewTempIsFree(st, initial, target);
    TempIsHidden(target, st.tickets);
    StayWhole(st, st', TempPath(target, st.tickets), initial);
    forall t | t in st'.inFlight ensures InFlightOk(st', st'.inFlight[t]) {
      assert t != task ==> InFlightOk(st, st.inFlight[t]);
    }
  }

  lemma RenameKeepsInv(st: State, task: nat, initial: map<Path, string>)
    requires Inv(st, initial) && Enabled(st, Rename(task))
    ensures Inv(Apply(st, Rename(task)), initial)
  {
    var st' := Apply(st, Rename(task));
    var s := st.inFlight[task];
    assert InFlightOk(st, s);
    TempIsHidden(s.target, s.ticket);
    forall t | t in st'.inFlight ensures InFlightOk(st', st'.inFlight[t]) {
      var u := st.inFlight[t];
      assert InFlightOk(st, u) && TempOf(u) != TempOf(s);
      TempIsHidden(u.target, u.ticket);
    }
    forall p | IsTarget(p) ensures Whole(st', initial, p) {
      assert Whole(st, initial, p);
    }
  }

  lemma StepKeepsInv(st: State, step: Step, initial: map<Path, string>)
    requires Inv(st, initial) && Enabled(st, step) && (step.Begin? ==> NoLap(st))
    ensures Inv(Apply(st, step), initial)
  {
    var st' := Apply(st, step);
    match step
    case Begin(task, target, contents) =>
      BeginKeepsInv(st, task, target, contents, initial);
    case Open(task) =>
      OwnTempWrite(st, st', task, Writing(0), initial);
    case Write(task, upTo) =>
      var s := st.inFlight[task];
      assert InFlightOk(st, s);
      WriteExtends(s.contents, s.phase.written, upTo);
      OwnTempWrite(st, st', task, Writing(upTo), initial);
    case WriteDone(task) =>
      var s := st.inFlight[task];
      assert InFlightOk(st, s);
      assert s.contents[..|s.contents|] == s.contents;
      OwnTempWrite(st, st', task, Written, initial);
    case Rename(task) =>
      RenameKeepsInv(st, task, initial);
    case Fail(task) =>
      FewerInFlight(st, st', initial);
    case Crash =>
      FewerInFlight(st, st', initial);
  }

  lemma FewerInFlight(st: State, st': State, initial: map<Path, string>)
    requires Inv(st, initial)
    requires st'.files == st.files && st'.made == st.made
    requires forall t :: t in st'.inFlight ==> t in st.inFlight && st'.inFlight[t] == st.inFlight[t]
    requires st'.tickets == st.tickets || st'.inFlight == map[]
    ensures Inv(st', initial)
  {
    forall t | t in st'.inFlight ensures InFlightOk(st', st'.inFlight[t]) {
      assert InFlightOk(st, st.inFlight[t]);
    }
    forall p | IsTarget(p) ensures Whole(st', initial, p) {
      assert Whole(st, initial, p);
    }
  }

  lemma {:induction false} RunKeepsInv(st: State, steps: seq<Step>, initial: map<Path, string>)
    requires Inv(st, initial) && ValidRun(st, steps)
    ensures Inv(Final(st, steps), initial)
    decreases |steps|
  {
    if steps != [] {
      StepKeepsInv(st, steps[0], initial);
      RunKeepsInv(Apply(st, steps[0]), steps[1..], initial);
    }
  }

  // ----- the theorems -----

  /** In every run, each stored file holds its initial contents or one whole save
      made to it, and no two saves in flight share a temp file. */
  lemma AtomicSaves(initial: map<Path, string>, steps: seq<Step>, p: Path)
    requires ValidRun(Boot(initial), steps) && IsTarget(p)
    ensures Whole(Final(Boot(initial), steps), initial, p)
    ensures DistinctTemps(Final(Boot(initial), steps))
  {
    RunKeepsInv(Boot(initial), steps, initial);
  }

  /** A save that reports success has published exactly its contents. */
  lemma RenamePublishes(st: State, initial: map<Path, string>, task: nat)
    requires Inv(st, initial) && Enabled(st, Rename(task))
    ensures var st' := Apply(st, Rename(task));
            var s := st.inFlight[task];
            s.target in st'.files && st'.files[s.target] == s.contents
  {}

  /** Only a rename by a save to that very file changes a stored file. */
  lemma OnlyRenameChanges(st: State, initial: map<Path, string>, step: Step, p: Path)
    requires Inv(st, initial) && Enabled(st, step) && IsTarget(p)
    requires !(step.Rename? && st.inFlight[step.task].target == p)
    ensures var st' := Apply(st, step);
            (p in st'.files <==> p in st.files) && (p in st.files ==> st'.files[p] == st.files[p])
  {
    if step.Open? || step.Write? || step.Rename? {
      TempIsHidden(st.inFlight[step.task].target, st.inFlight[step.task].ticket);
    }
  }

  /** A rename moves one file: the target has what the temp file had, which is gone, and
      every other file is as it was. */
  lemma RenameMoves(st: State, task: nat)
    requires Enabled(st, Rename(task))
    requires IsTarget(st.inFlight[task].target)
    ensures var st', s := Apply(st, Rename(task)), st.inFlight[task];
            && s.target in st'.files && st'.files[s.target] == st.files[TempOf(s)]
            && TempOf(s) !in st'.files && task !in st'.inFlight
            && forall p :: p != s.target && p != TempOf(s) ==>
                 (p in st'.files <==> p in st.files) && (p in st.files ==> st'.files[p] == st.files[p])
  {
    TempIsHidden(st.inFlight[task].target, st.inFlight[task].ticket);
  }

  /** A save that begins, ends its writing, fails or dies with the process touches no file,
      and the others only their own temp file. */
  lemma OnlyOwnFile(st: State, step: Step, p: Path)
    requires Enabled(st, step) && !step.Rename?
    requires step.Open? || step.Write? ==> p != TempOf(st.inFlight[step.task])
    ensures var st' := Apply(st, step);
            (p in st'.files <==> p in st.files) && (p in st.files ==> st'.files[p] == st.files[p])
  {}
}
