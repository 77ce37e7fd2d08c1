/** Watch mode as a state machine: the session's state, the world around it, and their steps. */
module WatchModel {
  import opened Wrappers

  type Path = string

  datatype FileChangeEvent = Change | CreateDelete | CreateDeleteDir

  datatype Event = Event(kind: FileChangeEvent, fileName: Path)

  datatype SourceFile = SourceFile(text: string, languageVersion: nat)

  datatype CacheEntry = CacheEntry(exists_: Option<bool>, sf: Option<SourceFile>, content: Option<string>)

  /** What `readConfiguration` yields; `options` identifies the compiler options. */
  datatype ParsedConfiguration = ParsedConfiguration(project: Path, options: nat, hasErrors: bool)

  datatype Queued = Queued(timerHandle: nat, modifiedResourceFiles: set<Path>)

  const EMPTY_ENTRY: CacheEntry := CacheEntry(None, None, None)
  const DELAY: nat := 250

  datatype Phase = Unstarted | Compiled | Watching | Closed

  /**
   * `normalize` is the path normalisation. The disk is indexed by normalised path. `undelivered`
   * are the events the watcher has yet to report; `missed` are the paths that changed without
   * any such event since they were last dropped from the cache. `timers` maps live handles to
   * the time they are due.
   */
  datatype State = State(
    normalize: Path -> Path,
    // the session
    cachedProgram: Option<nat>,
    cachedCompilerHost: Option<nat>,
    cachedOptions: Option<ParsedConfiguration>,
    queued: Option<Queued>,
    ignoreFiles: set<Path>,
    fileCache: map<Path, CacheEntry>,
    // the world
    disk: map<Path, string>,
    phase: Phase,
    undelivered: seq<Event>,
    missed: set<Path>,
    timers: map<nat, nat>,
    nextHandle: nat,
    now: nat)

  function Initial(normalize: Path -> Path, disk: map<Path, string>): State {
    State(normalize, None, None, None, None, {}, map[], disk, Unstarted, [], {}, map[], 0, 0)
  }

  // ---------- The compiler host, without and with the cache ----------

  datatype HostOp =
    | FileExists(fileName: Path)
    | GetSourceFile(fileName: Path, languageVersion: nat)
    | ReadFile(fileName: Path)
    | GetModified
    | WriteFile(fileName: Path, data: string, noticed: bool)

  datatype HostResult =
    | Exists(b: bool)
    | Source(sf: Option<SourceFile>)
    | Text(content: Option<string>)
    | Modified(files: Option<set<Path>>)
    | Written

  function DiskText(s: State, p: Path): Option<string> {
    if p in s.disk then Some(s.disk[p]) else None
  }

  /** What the original host answers to a read. */
  function Uncached(s: State, op: HostOp): HostResult
    requires op.FileExists? || op.GetSourceFile? || op.ReadFile?
  {
    var p := s.normalize(op.fileName);
    match op
    case FileExists(_) => Exists(p in s.disk)
    case ReadFile(_) => Text(DiskText(s, p))
    case GetSourceFile(_, version) =>
      Source(if p in s.disk then Some(SourceFile(s.disk[p], version)) else None)
  }

  function EntryOf(s: State, p: Path): CacheEntry {
    if p in s.fileCache then s.fileCache[p] else EMPTY_ENTRY
  }

  /** One call of the compiler host, with the caching wrappers in place. */
  function HostStep(s: State, op: HostOp): (State, HostResult) {
    match op
    case FileExists(f) =>
      var p, e := s.normalize(f), EntryOf(s, s.normalize(f));
      var b := if e.exists_.Some? then e.exists_.value else p in s.disk;
      (s.(fileCache := s.fileCache[p := e.(exists_ := Some(b))]), Exists(b))
    case GetSourceFile(f, version) =>
      var p, e := s.normalize(f), EntryOf(s, s.normalize(f));
      var sf := if e.sf.Some? then e.sf else Uncached(s, op).sf;
      (s.(fileCache := s.fileCache[p := e.(sf := sf)]), Source(sf))
    case ReadFile(f) =>
      var p, e := s.normalize(f), EntryOf(s, s.normalize(f));
      var text := if e.content.Some? then e.content else DiskText(s, p);
      (s.(fileCache := s.fileCache[p := e.(content := text)]), Text(text))
    case GetModified =>
      (s, Modified(if s.queued.Some? then Some(s.queued.value.modifiedResourceFiles) else None))
    case WriteFile(f, data, noticed) =>
      var p := s.normalize(f);
      var event := Event(if p in s.disk then Change else CreateDelete, f);
      var s1 := s.(ignoreFiles := s.ignoreFiles + {p}, disk := s.disk[p := data]);
      (if s.phase.Watching? && noticed then s1.(undelivered := s.undelivered + [event])
       else s1.(missed := s.missed + {p}), Written)
  }

  function HostSteps(s: State, ops: seq<HostOp>): State {
    if ops == [] then s else HostStep(HostSteps(s, ops[..|ops| - 1]), ops[|ops| - 1]).0
  }

  // ---------- Compilation ----------

  /** What the configuration file yields now, the calls the compiler makes, and its program. */
  datatype Compilation = Compilation(config: ParsedConfiguration, ops: seq<HostOp>, program: Option<nat>)

  function WithOptions(s: State, c: Compilation): State {
    if s.cachedOptions.None? then s.(cachedOptions := Some(c.config)) else s
  }

  /** The state in which `performCompilation` starts. */
  function BeforeCompile(s: State): State
    requires s.cachedOptions.Some?
  {
    var s1 := if s.cachedCompilerHost.None?
              then s.(cachedCompilerHost := Some(s.cachedOptions.value.options)) else s;
    s1.(ignoreFiles := {}, cachedProgram := None)
  }

  function DoCompilation(s: State, c: Compilation): State {
    var s1 := WithOptions(s, c);
    if s1.cachedOptions.value.hasErrors then s1
    else HostSteps(BeforeCompile(s1), c.ops).(cachedProgram := c.program)
  }

  // ---------- Events and timers ----------

  function StartTimer(s: State, changedPath: Path): State {
    var live := if s.queued.Some? then s.timers - {s.queued.value.timerHandle} else s.timers;
    var files := if s.queued.Some? then s.queued.value.modifiedResourceFiles else {};
    s.(timers := live[s.nextHandle := s.now + DELAY],
       nextHandle := s.nextHandle + 1,
       queued := Some(Queued(s.nextHandle, files + {changedPath})))
  }

  function ForgetOptions(s: State, e: Event): State {
    if s.cachedOptions.Some? && e.kind.Change?
       && s.normalize(e.fileName) == s.normalize(s.cachedOptions.value.project)
    then s.(cachedProgram := None, cachedCompilerHost := None, cachedOptions := None)
    else if e.kind.CreateDelete? || e.kind.CreateDeleteDir? then s.(cachedOptions := None)
    else s
  }

  /** `missed` forgets the paths that the event drops from the cache. */
  function DropFromCache(s: State, e: Event): State {
    var p := s.normalize(e.fileName);
    if e.kind.CreateDeleteDir? then s.(fileCache := map[], missed := {})
    else s.(fileCache := s.fileCache - {p}, missed := s.missed - {p})
  }

  function WatchedFileChanged(s: State, e: Event): State {
    var p := s.normalize(e.fileName);
    var s1 := DropFromCache(ForgetOptions(s, e), e);
    if p in s.ignoreFiles then s1 else StartTimer(s1, p)
  }

  // ---------- Steps ----------

  /**
   * `Start` is the first compilation, `Ready` the watcher reporting from then on. `Mutate` is a
   * change of the disk by others, with the events the watcher will report for it. `Deliver`
   * reports one event, `Fire` runs the recompilation of a due timer.
   */
  datatype Step =
    | Start(c: Compilation)
    | Ready
    | Mutate(disk: map<Path, string>, events: seq<Event>)
    | Deliver(i: nat)
    | Tick(elapsed: nat)
    | Fire(handle: nat, c: Compilation)
    | Close

  predicate Covers(s: State, e: Event, p: Path) {
    e.kind.CreateDeleteDir? || s.normalize(e.fileName) == p
  }

  predicate Changed(a: map<Path, string>, b: map<Path, string>, p: Path) {
    (p in a) != (p in b) || (p in a && a[p] != b[p])
  }

  function Unnoticed(s: State, disk: map<Path, string>, events: seq<Event>): set<Path> {
    set p | p in s.disk.Keys + disk.Keys
         && Changed(s.disk, disk, p)
         && !(exists e :: e in events && Covers(s, e, p))
  }

  predicate Enabled(s: State, step: Step) {
    match step
    case Start(_) => s.phase.Unstarted?
    case Ready => s.phase.Compiled?
    case Deliver(i) => s.phase.Watching? && i < |s.undelivered|
    case Fire(h, _) => h in s.timers && s.timers[h] <= s.now
    case _ => true
  }

  function Next(s: State, step: Step): State
    requires Enabled(s, step)
  {
    match step
    case Start(c) => DoCompilation(s, c).(phase := Compiled)
    case Ready => s.(phase := Watching)
    case Mutate(disk, events) =>
      var seen := if s.phase.Watching? then events else [];
      s.(disk := disk, undelivered := s.undelivered + seen, missed := s.missed + Unnoticed(s, disk, seen))
    case Deliver(i) =>
      WatchedFileChanged(s.(undelivered := s.undelivered[..i] + s.undelivered[i + 1..]), s.undelivered[i])
    case Tick(d) => s.(now := s.now + d)
    case Fire(h, c) => DoCompilation(s.(timers := s.timers - {h}), c).(queued := None)
    case Close =>
      s.(phase := Closed,
         timers := if s.queued.Some? then s.timers - {s.queued.value.timerHandle} else s.timers,
         queued := None)
  }

  /** A run: every step is enabled in the state the steps before it lead to. */
  predicate IsRun(s: State, steps: seq<Step>)
    decreases steps, 0
  {
    steps == [] ||
    (IsRun(s, steps[..|steps| - 1]) && Enabled(After(s, steps[..|steps| - 1]), steps[|steps| - 1]))
  }

  function After(s: State, steps: seq<Step>): State
    requires IsRun(s, steps)
    decreases steps, 1
  {
    if steps == [] then s
    else Next(After(s, steps[..|steps| - 1]), steps[|steps| - 1])
  }
}
