/** The watch session as the closure variables that its handlers update in place. */
module WatchSession {
  import opened Wrappers
  import opened WatchModel
  import opened WatchProofs

  class Entry {
    var exists_: Option<bool>
    var sf: Option<SourceFile>
    var content: Option<string>

    constructor ()
      ensures State() == EMPTY_ENTRY
    {
      exists_, sf, content := None, None, None;
    }

    ghost function State(): CacheEntry
      reads this
    {
      CacheEntry(exists_, sf, content)
    }
  }

  ghost function Entries(m: map<Path, Entry>): map<Path, CacheEntry>
    reads m.Values
  {
    map p | p in m :: m[p].State()
  }

  class Session {
    const normalize: Path -> Path
    var cachedProgram: Option<nat>
    var cachedCompilerHost: Option<nat>
    var cachedOptions: Option<ParsedConfiguration>
    var queued: Option<Queued>
    var ignoreFilesForWatch: set<Path>
    var fileCache: map<Path, Entry>
    // the file system, the watcher and the timers of the host
    var disk: map<Path, string>
    var phase: Phase
    var undelivered: seq<Event>
    ghost var missed: set<Path>
    var timers: map<nat, nat>
    var nextHandle: nat
    var now: nat

    ghost predicate Valid()
      reads this
    {
      forall p, q :: p in fileCache && q in fileCache && p != q ==> fileCache[p] != fileCache[q]
    }

    ghost function State(): State
      reads this, fileCache.Values
    {
      WatchModel.State.State(normalize, cachedProgram, cachedCompilerHost, cachedOptions, queued, ignoreFilesForWatch,
                  Entries(fileCache), disk, phase, undelivered, missed, timers, nextHandle, now)
    }

    /** Every entry in the cache was there before or is new. */
    twostate predicate KeepsEntries()
      reads this
    {
      forall p :: p in fileCache ==> fileCache[p] in old(fileCache.Values) || fresh(fileCache[p])
    }

    constructor (normalize: Path -> Path, disk: map<Path, string>)
      ensures Valid() && fileCache == map[]
      ensures State() == Initial(normalize, disk)
    {
      this.normalize := normalize;
      cachedProgram, cachedCompilerHost, cachedOptions, queued := None, None, None, None;
      ignoreFilesForWatch, fileCache := {}, map[];
      this.disk, phase, undelivered, missed := disk, Unstarted, [], {};
      timers, nextHandle, now := map[], 0, 0;
    }

    method CacheEntryFor(fileName: Path) returns (entry: Entry)
      requires Valid()
      modifies this`fileCache
      ensures Valid() && KeepsEntries()
      ensures var p := normalize(fileName);
              && p in fileCache && fileCache[p] == entry && entry.State() == EntryOf(old(State()), p)
              && State() == old(State()).(fileCache := old(State()).fileCache[p := EntryOf(old(State()), p)])
    {
      var name := normalize(fileName);
      if name in fileCache {
        entry := fileCache[name];
        assert Entries(fileCache) == old(Entries(fileCache))[name := EntryOf(old(State()), name)];
      } else {
        entry := new Entry();
        fileCache := fileCache[name := entry];
        assert Entries(fileCache) == old(Entries(fileCache))[name := EMPTY_ENTRY];
      }
    }

    /** Only the entry of `name` has changed. */
    twostate lemma EntryUpdated(name: Path)
      requires old(Valid()) && fileCache == old(fileCache) && name in fileCache
      requires forall p :: p in fileCache && p != name ==> fileCache[p].State() == old(fileCache[p].State())
      ensures Entries(fileCache) == old(Entries(fileCache))[name := fileCache[name].State()]
    {
    }

    method FileExists(fileName: Path) returns (b: bool)
      requires Valid()
      modifies this`fileCache, fileCache.Values
      ensures Valid() && KeepsEntries()
      ensures (State(), Exists(b)) == HostStep(old(State()), HostOp.FileExists(fileName))
    {
      var ce := CacheEntryFor(fileName);
      label Found:
      if ce.exists_.None? {
        ce.exists_ := Some(normalize(fileName) in disk);
      }
      b := ce.exists_.value;
      assert Entries(fileCache) == old(Entries(fileCache))[normalize(fileName) := ce.State()] by {
        EntryUpdated@Found(normalize(fileName));
      }
    }

    method GetSourceFile(fileName: Path, languageVersion: nat) returns (sf: Option<SourceFile>)
      requires Valid()
      modifies this`fileCache, fileCache.Values
      ensures Valid() && KeepsEntries()
      ensures (State(), Source(sf)) == HostStep(old(State()), HostOp.GetSourceFile(fileName, languageVersion))
    {
      var ce := CacheEntryFor(fileName);
      label Found:
      if ce.sf.None? {
        var p := normalize(fileName);
        ce.sf := if p in disk then Some(SourceFile(disk[p], languageVersion)) else None;
      }
      sf := ce.sf;
      assert Entries(fileCache) == old(Entries(fileCache))[normalize(fileName) := ce.State()] by {
        EntryUpdated@Found(normalize(fileName));
      }
    }

    method ReadFile(fileName: Path) returns (content: Option<string>)
      requires Valid()
      modifies this`fileCache, fileCache.Values
      ensures Valid() && KeepsEntries()
      ensures (State(), Text(content)) == HostStep(old(State()), HostOp.ReadFile(fileName))
    {
      var ce := CacheEntryFor(fileName);
      label Found:
      if ce.content.None? {
        var p := normalize(fileName);
        ce.content := if p in disk then Some(disk[p]) else None;
      }
      content := ce.content;
      assert Entries(fileCache) == old(Entries(fileCache))[normalize(fileName) := ce.State()] by {
        EntryUpdated@Found(normalize(fileName));
      }
    }

    /** The file paths that triggered the compilation under way. */
    method GetModifiedResourceFiles() returns (files: Option<set<Path>>)
      ensures (State(), Modified(files)) == HostStep(State(), GetModified)
    {
      if queued.None? { return None; }
      files := Some(queued.value.modifiedResourceFiles);
    }

    method WriteFile(fileName: Path, data: string, noticed: bool)
      modifies this`ignoreFilesForWatch, this`disk, this`undelivered, this`missed
      ensures (State(), Written) == HostStep(old(State()), HostOp.WriteFile(fileName, data, noticed))
    {
      var p := normalize(fileName);
      ignoreFilesForWatch := ignoreFilesForWatch + {p};
      var event := Event(if p in disk then Change else CreateDelete, fileName);
      disk := disk[p := data];
      if phase.Watching? && noticed {
        undelivered := undelivered + [event];
      } else {
        missed := missed + {p};
      }
    }

    /** The calls that a compilation makes on the compiler host. */
    method PerformCompilation(ops: seq<HostOp>)
      requires Valid()
      modifies this`fileCache, this`ignoreFilesForWatch, this`disk, this`undelivered, this`missed
      modifies fileCache.Values
      ensures Valid() && KeepsEntries()
      ensures State() == HostSteps(old(State()), ops)
    {
      assert ops[..0] == [];
      for i := 0 to |ops|
        invariant Valid() && KeepsEntries()
        invariant State() == HostSteps(old(State()), ops[..i])
      {
        assert ops[..i + 1][..i] == ops[..i];
        match ops[i]
        case FileExists(f) => var _ := FileExists(f);
        case GetSourceFile(f, version) => var _ := GetSourceFile(f, version);
        case ReadFile(f) => var _ := ReadFile(f);
        case GetModified => var _ := GetModifiedResourceFiles();
        case WriteFile(f, data, noticed) => WriteFile(f, data, noticed);
      }
      assert ops[..|ops|] == ops;
    }

    /** The compiler host is created once, and every compilation starts with an empty ignore set. */
    method PrepareHost()
      requires cachedOptions.Some?
      modifies this`cachedCompilerHost, this`ignoreFilesForWatch, this`cachedProgram
      ensures State() == BeforeCompile(old(State()))
    {
      if cachedCompilerHost.None? {
        cachedCompilerHost := Some(cachedOptions.value.options);
      }
      ignoreFilesForWatch := {};
      cachedProgram := None;
    }

    method DoCompilation(c: Compilation)
      requires Valid()
      modifies this, fileCache.Values
      ensures Valid() && KeepsEntries()
      ensures State() == WatchModel.DoCompilation(old(State()), c)
    {
      if cachedOptions.None? {
        cachedOptions := Some(c.config);
      }
      if cachedOptions.value.hasErrors {
        return;
      }
      assert State() == WithOptions(old(State()), c);
      PrepareHost();
      PerformCompilation(c.ops);
      cachedProgram := c.program;
    }

    method StartTimerForRecompilation(changedPath: Path)
      modifies this`queued, this`timers, this`nextHandle
      ensures State() == StartTimer(old(State()), changedPath)
    {
      var modified := {};
      if queued.Some? {
        timers := timers - {queued.value.timerHandle};
        modified := queued.value.modifiedResourceFiles;
      }
      timers := timers[nextHandle := now + DELAY];
      queued := Some(Queued(nextHandle, modified + {changedPath}));
      nextHandle := nextHandle + 1;
    }

    method ResetOptions()
      modifies this`cachedProgram, this`cachedCompilerHost, this`cachedOptions
      ensures State() == old(State()).(cachedProgram := None, cachedCompilerHost := None, cachedOptions := None)
    {
      cachedProgram, cachedCompilerHost, cachedOptions := None, None, None;
    }

    /** A changed configuration file resets everything; a created or deleted file the options. */
    method ForgetOptions(event: Event)
      modifies this`cachedProgram, this`cachedCompilerHost, this`cachedOptions
      ensures State() == WatchModel.ForgetOptions(old(State()), event)
    {
      if cachedOptions.Some? && event.kind.Change?
         && normalize(event.fileName) == normalize(cachedOptions.value.project) {
        ResetOptions();
      } else if event.kind.CreateDelete? || event.kind.CreateDeleteDir? {
        cachedOptions := None;
      }
    }

    method DropFromCache(event: Event)
      requires Valid()
      modifies this`fileCache, this`missed
      ensures Valid() && fileCache.Values <= old(fileCache.Values)
      ensures State() == WatchModel.DropFromCache(old(State()), event)
    {
      if event.kind.CreateDeleteDir? {
        fileCache, missed := map[], {};
      } else {
        var normalizedPath := normalize(event.fileName);
        fileCache, missed := fileCache - {normalizedPath}, missed - {normalizedPath};
        assert Entries(fileCache) == old(Entries(fileCache)) - {normalizedPath};
      }
    }

    method WatchedFileChanged(event: Event)
      requires Valid()
      modifies this
      ensures Valid() && fileCache.Values <= old(fileCache.Values)
      ensures State() == WatchModel.WatchedFileChanged(old(State()), event)
    {
      hide WatchModel.ForgetOptions, WatchModel.DropFromCache, StartTimer;
      var normalizedPath := normalize(event.fileName);
      ForgetOptions(event);
      DropFromCache(event);
      if normalizedPath !in ignoreFilesForWatch {
        StartTimerForRecompilation(normalizedPath);
      }
    }

    method Recompile(c: Compilation)
      requires Valid()
      modifies this, fileCache.Values
      ensures Valid() && KeepsEntries()
      ensures State() == WatchModel.DoCompilation(old(State()), c).(queued := None)
    {
      DoCompilation(c);
      queued := None;
    }

    method Close()
      modifies this`phase, this`timers, this`queued
      ensures State() == Next(old(State()), Step.Close)
    {
      hide WatchModel.WatchedFileChanged, WatchModel.DoCompilation, Unnoticed;
      phase := Closed;
      if queued.Some? {
        timers := timers - {queued.value.timerHandle};
        queued := None;
      }
    }

    method Mutate(disk': map<Path, string>, events: seq<Event>)
      modifies this`disk, this`undelivered, this`missed
      ensures State() == Next(old(State()), Step.Mutate(disk', events))
    {
      var seen := if phase.Watching? then events else [];
      missed := missed + Unnoticed(State(), disk', seen);
      disk, undelivered := disk', undelivered + seen;
    }

    method Deliver(i: nat)
      requires Valid() && Enabled(State(), Step.Deliver(i))
      modifies this
      ensures Valid() && fileCache.Values <= old(fileCache.Values)
      ensures State() == Next(old(State()), Step.Deliver(i))
    {
      hide WatchModel.WatchedFileChanged;
      var event := undelivered[i];
      undelivered := undelivered[..i] + undelivered[i + 1..];
      WatchedFileChanged(event);
    }

    method FirstCompilation(c: Compilation)
      requires Valid() && phase.Unstarted?
      modifies this, fileCache.Values
      ensures Valid() && KeepsEntries()
      ensures State() == Next(old(State()), Step.Start(c))
    {
      hide WatchModel.DoCompilation, WatchModel.WatchedFileChanged, Unnoticed;
      DoCompilation(c);
      phase := Compiled;
    }

    method Fire(handle: nat, c: Compilation)
      requires Valid() && Enabled(State(), Step.Fire(handle, c))
      modifies this, fileCache.Values
      ensures Valid() && KeepsEntries()
      ensures State() == Next(old(State()), Step.Fire(handle, c))
    {
      hide WatchModel.DoCompilation, WatchModel.WatchedFileChanged, Unnoticed;
      timers := timers - {handle};
      Recompile(c);
    }

    /** The watcher is ready, or time passes. */
    method Wait(step: Step)
      requires Valid() && (step.Ready? || step.Tick?)
      requires Enabled(State(), step)
      modifies this`phase, this`now
      ensures State() == Next(old(State()), step)
    {
      if step.Ready? { phase := Watching; } else { now := now + step.elapsed; }
    }

    /** One step of the state machine, done by the handler that the host would call. */
    method Perform(step: Step)
      requires Valid() && Enabled(State(), step)
      modifies this, fileCache.Values
      ensures Valid() && KeepsEntries()
      ensures State() == Next(old(State()), step)
    {
      hide Next;
      match step
      case Start(c) => FirstCompilation(c);
      case Mutate(disk', events) => Mutate(disk', events);
      case Deliver(i) => Deliver(i);
      case Fire(handle, c) => Fire(handle, c);
      case Close => Close();
      case _ => Wait(step);
    }

    /** A whole run; from a new session it keeps the cache coherent and at most one timer live. */
    method Replay(steps: seq<Step>)
      requires Valid() && IsRun(State(), steps)
      modifies this, fileCache.Values
      ensures Valid() && KeepsEntries()
      ensures State() == After(old(State()), steps)
      ensures old(State()) == Initial(normalize, old(disk)) ==> Coherent(State()) && OneTimer(State())
    {
      hide Next, Enabled, IsRun, After, Coherent, OneTimer, Initial;
      ghost var s := State();
      assert steps[..0] == [];
      RunNone(s);
      for k := 0 to |steps|
        invariant Valid() && KeepsEntries()
        invariant IsRun(s, steps[..k]) && State() == After(s, steps[..k])
      {
        RunPrefix(s, steps, k);
        RunCons(s, steps[..k], steps[k]);
        assert steps[..k] + [steps[k]] == steps[..k + 1];
        Perform(steps[k]);
      }
      assert steps[..|steps|] == steps;
      if s == Initial(normalize, s.disk) {
        CacheCoherent(normalize, s.disk, steps);
        ReachableOneTimer(normalize, s.disk, steps);
      }
    }
  }
}
