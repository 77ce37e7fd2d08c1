/** Safety of watch mode over every run. */
module WatchProofs {
  import opened Wrappers
  import opened WatchModel

  // ---------- Cache coherence ----------

  /** Every cached answer is the one the disk gives now. */
  ghost predicate Fresh(e: CacheEntry, p: Path, disk: map<Path, string>) {
    && (e.exists_.Some? ==> e.exists_.value == (p in disk))
    && (e.content.Some? ==> p in disk && e.content.value == disk[p])
    && (e.sf.Some? ==> p in disk && e.sf.value.text == disk[p])
  }

  /** A change of `p` is still to be reported, or never will be. */
  ghost predicate Pending(s: State, p: Path) {
    p in s.missed || exists e :: e in s.undelivered && Covers(s, e, p)
  }

  ghost predicate Coherent(s: State) {
    forall p :: p in s.fileCache ==> Fresh(s.fileCache[p], p, s.disk) || Pending(s, p)
  }

  lemma HostStepCoherent(s: State, op: HostOp)
    requires Coherent(s)
    ensures Coherent(HostStep(s, op).0)
  {
    var t := HostStep(s, op).0;
    forall p | p in t.fileCache ensures Fresh(t.fileCache[p], p, t.disk) || Pending(t, p) {
      if op.WriteFile? {
        var q := s.normalize(op.fileName);
        assert p in s.fileCache && t.fileCache[p] == s.fileCache[p];
        if p == q {
          if s.phase.Watching? && op.noticed {
            var e := t.undelivered[|s.undelivered|];
            assert e in t.undelivered && Covers(t, e, p);
          }
        } else if Pending(s, p) && p !in s.missed {
          var e :| e in s.undelivered && Covers(s, e, p);
          assert e in t.undelivered && Covers(t, e, p);
        }
      } else {
        assert t.undelivered == s.undelivered && t.missed == s.missed && t.disk == s.disk;
        if Pending(s, p) && p !in s.missed {
          var e :| e in s.undelivered && Covers(s, e, p);
          assert Covers(t, e, p);
        }
        if !Pending(s, p) {
          assert p in s.fileCache ==> Fresh(s.fileCache[p], p, s.disk);
        }
      }
    }
  }

  lemma {:induction false} HostStepsCoherent(s: State, ops: seq<HostOp>)
    requires Coherent(s)
    ensures Coherent(HostSteps(s, ops))
  {
    if ops != [] {
      HostStepsCoherent(s, ops[..|ops| - 1]);
      HostStepCoherent(HostSteps(s, ops[..|ops| - 1]), ops[|ops| - 1]);
    }
  }

  /** Coherence depends on the cache, the disk and what is still to be reported only. */
  lemma CoherentFrame(s: State, t: State)
    requires Coherent(s) && t.normalize == s.normalize
    requires t.fileCache == s.fileCache && t.disk == s.disk && t.undelivered == s.undelivered && t.missed == s.missed
    ensures Coherent(t)
  {
    forall p | p in t.fileCache ensures Fresh(t.fileCache[p], p, t.disk) || Pending(t, p) {
      if Pending(s, p) && p !in s.missed {
        var e :| e in s.undelivered && Covers(s, e, p);
        assert Covers(t, e, p);
      }
    }
  }

  lemma DoCompilationCoherent(s: State, c: Compilation)
    requires Coherent(s)
    ensures Coherent(DoCompilation(s, c))
  {
    var s1 := WithOptions(s, c);
    CoherentFrame(s, s1);
    if !s1.cachedOptions.value.hasErrors {
      CoherentFrame(s1, BeforeCompile(s1));
      HostStepsCoherent(BeforeCompile(s1), c.ops);
      CoherentFrame(HostSteps(BeforeCompile(s1), c.ops), DoCompilation(s, c));
    }
  }

  lemma MutateCoherent(s: State, disk: map<Path, string>, events: seq<Event>)
    requires Coherent(s)
    ensures Coherent(s.(disk := disk, undelivered := s.undelivered + events,
                        missed := s.missed + Unnoticed(s, disk, events)))
  {
    var t := s.(disk := disk, undelivered := s.undelivered + events, missed := s.missed + Unnoticed(s, disk, events));
    forall p | p in t.fileCache ensures Fresh(t.fileCache[p], p, t.disk) || Pending(t, p) {
      if Pending(s, p) && p !in s.missed {
        var e :| e in s.undelivered && Covers(s, e, p);
        assert e in t.undelivered && Covers(t, e, p);
      } else if Changed(s.disk, disk, p) && exists e :: e in events && Covers(s, e, p) {
        var e :| e in events && Covers(s, e, p);
        assert e in t.undelivered && Covers(t, e, p);
      }
    }
  }

  lemma DeliverCoherent(s: State, i: nat)
    requires Coherent(s) && i < |s.undelivered|
    ensures Coherent(WatchedFileChanged(s.(undelivered := s.undelivered[..i] + s.undelivered[i + 1..]), s.undelivered[i]))
  {
    var e := s.undelivered[i];
    var s0 := s.(undelivered := s.undelivered[..i] + s.undelivered[i + 1..]);
    var t := WatchedFileChanged(s0, e);
    forall p | p in t.fileCache ensures Fresh(t.fileCache[p], p, t.disk) || Pending(t, p) {
      assert !Covers(s, e, p) && p in s.fileCache;
      if Pending(s, p) && p !in s.missed {
        var e' :| e' in s.undelivered && Covers(s, e', p);
        assert e' in s0.undelivered by {
          var k :| 0 <= k < |s.undelivered| && s.undelivered[k] == e';
          assert k != i;
          assert if k < i then s0.undelivered[k] == e' else s0.undelivered[k - 1] == e';
        }
        assert Covers(t, e', p);
      }
    }
  }

  lemma NextCoherent(s: State, step: Step)
    requires Enabled(s, step) && Coherent(s)
    ensures Coherent(Next(s, step))
  {
    match step
    case Start(c) =>
      DoCompilationCoherent(s, c);
      CoherentFrame(DoCompilation(s, c), Next(s, step));
    case Ready => CoherentFrame(s, Next(s, step));
    case Mutate(disk, events) => MutateCoherent(s, disk, if s.phase.Watching? then events else []);
    case Deliver(i) => DeliverCoherent(s, i);
    case Tick(_) => CoherentFrame(s, Next(s, step));
    case Fire(h, c) =>
      CoherentFrame(s, s.(timers := s.timers - {h}));
      DoCompilationCoherent(s.(timers := s.timers - {h}), c);
      CoherentFrame(DoCompilation(s.(timers := s.timers - {h}), c), Next(s, step));
    case Close => CoherentFrame(s, Next(s, step));
  }

  /**
   * In every reachable state a cached answer equals the disk unless a change of that path is
   * still to be reported or was never going to be.
   */
  lemma {:induction false} CacheCoherent(normalize: Path -> Path, disk: map<Path, string>, steps: seq<Step>)
    requires IsRun(Initial(normalize, disk), steps)
    ensures Coherent(After(Initial(normalize, disk), steps))
  {
    if steps != [] {
      CacheCoherent(normalize, disk, steps[..|steps| - 1]);
      NextCoherent(After(Initial(normalize, disk), steps[..|steps| - 1]), steps[|steps| - 1]);
    }
  }

  predicate IsRead(op: HostOp) {
    op.FileExists? || op.GetSourceFile? || op.ReadFile?
  }

  /** Equal up to the language version of a source file. */
  predicate SameAnswer(a: HostResult, b: HostResult) {
    if a.Source? && b.Source? && a.sf.Some? && b.sf.Some? then a.sf.value.text == b.sf.value.text else a == b
  }

  /**
   * A read of a path with nothing pending answers like the original host, and for a source file
   * the language version agrees too exactly when the cached file, if any, was parsed for it.
   */
  lemma ReadIsUncached(s: State, op: HostOp)
    requires Coherent(s) && IsRead(op) && !Pending(s, s.normalize(op.fileName))
    ensures SameAnswer(HostStep(s, op).1, Uncached(s, op))
    ensures HostStep(s, op).1 == Uncached(s, op) <==>
              (op.GetSourceFile? ==>
                 var sf := EntryOf(s, s.normalize(op.fileName)).sf;
                 sf.Some? ==> sf.value.languageVersion == op.languageVersion)
  {
    var p := s.normalize(op.fileName);
    assert Fresh(EntryOf(s, p), p, s.disk);
  }

  predicate Writes(s: State, ops: seq<HostOp>, p: Path) {
    exists i :: 0 <= i < |ops| && ops[i].WriteFile? && s.normalize(ops[i].fileName) == p
  }

  /** Calls of the host make nothing pending but what they write. */
  lemma {:induction false} PendingAfterOps(s: State, ops: seq<HostOp>, p: Path)
    requires !Pending(s, p) && !Writes(s, ops, p)
    ensures !Pending(HostSteps(s, ops), p)
    ensures HostSteps(s, ops).normalize == s.normalize
    ensures Changed(s.disk, HostSteps(s, ops).disk, p) == false
  {
    if ops != [] {
      var init, op := ops[..|ops| - 1], ops[|ops| - 1];
      assert !Writes(s, init, p);
      PendingAfterOps(s, init, p);
      var t := HostSteps(s, init);
      var u := HostStep(t, op).0;
      if op.WriteFile? {
        assert ops[|ops| - 1].WriteFile? && s.normalize(op.fileName) != p;
      }
      forall e | e in u.undelivered ensures !Covers(u, e, p) {
        if e in t.undelivered { assert !Covers(t, e, p); }
      }
    }
  }

  /**
   * During a recompilation that starts with no event undelivered, every read of a path that was
   * not missed, and that this compilation has not itself written, answers as the uncached host
   * would on the disk the compilation started with.
   */
  lemma CompilationReadsDisk(s: State, step: Step, k: nat)
    requires Coherent(s) && Enabled(s, step) && step.Fire? && s.undelivered == []
    requires var s1 := WithOptions(s.(timers := s.timers - {step.handle}), step.c);
             !s1.cachedOptions.value.hasErrors
    requires k < |step.c.ops| && IsRead(step.c.ops[k])
    requires var p := s.normalize(step.c.ops[k].fileName);
             p !in s.missed && !Writes(s, step.c.ops[..k], p)
    ensures var s1 := BeforeCompile(WithOptions(s.(timers := s.timers - {step.handle}), step.c));
            SameAnswer(HostStep(HostSteps(s1, step.c.ops[..k]), step.c.ops[k]).1, Uncached(s, step.c.ops[k]))
  {
    var op, ops := step.c.ops[k], step.c.ops[..k];
    var s1 := BeforeCompile(WithOptions(s.(timers := s.timers - {step.handle}), step.c));
    var p := s.normalize(op.fileName);
    CoherentFrame(s, s1);
    HostStepsCoherent(s1, ops);
    assert !Writes(s1, ops, p) by {
      assert s1.normalize == s.normalize;
    }
    PendingAfterOps(s1, ops, p);
    var t := HostSteps(s1, ops);
    ReadIsUncached(t, op);
    assert DiskText(t, p) == DiskText(s, p);
  }

  // ---------- Debounce ----------

  /** Everything that a call of the host leaves alone. */
  ghost predicate SameOutside(s: State, t: State) {
    && t.normalize == s.normalize && t.queued == s.queued && t.timers == s.timers
    && t.nextHandle == s.nextHandle && t.now == s.now && t.phase == s.phase
    && t.cachedOptions == s.cachedOptions && t.cachedCompilerHost == s.cachedCompilerHost
  }

  lemma HostStepFrame(s: State, op: HostOp)
    ensures SameOutside(s, HostStep(s, op).0)
  {
  }

  lemma {:induction false} HostStepsFrame(s: State, ops: seq<HostOp>)
    ensures SameOutside(s, HostSteps(s, ops))
  {
    if ops != [] {
      HostStepsFrame(s, ops[..|ops| - 1]);
      HostStepFrame(HostSteps(s, ops[..|ops| - 1]), ops[|ops| - 1]);
    }
  }

  lemma DoCompilationFrame(s: State, c: Compilation)
    ensures var t := DoCompilation(s, c);
            && t.normalize == s.normalize && t.queued == s.queued && t.timers == s.timers
            && t.nextHandle == s.nextHandle && t.now == s.now && t.phase == s.phase
  {
    var s1 := WithOptions(s, c);
    if !s1.cachedOptions.value.hasErrors {
      HostStepsFrame(BeforeCompile(s1), c.ops);
    }
  }

  /** The only live timer is the one of the queued record. */
  ghost predicate OneTimer(s: State) {
    && (s.queued.None? ==> s.timers == map[])
    && (s.queued.Some? ==>
          s.timers.Keys == {s.queued.value.timerHandle} && s.queued.value.modifiedResourceFiles != {})
    && (forall h :: h in s.timers ==> h < s.nextHandle)
    && (s.queued.Some? ==> s.phase.Watching?)
  }

  lemma ReportOneTimer(s: State, e: Event)
    requires OneTimer(s) && s.phase.Watching?
    ensures OneTimer(WatchedFileChanged(s, e))
  {
  }

  lemma NextOneTimer(s: State, step: Step)
    requires Enabled(s, step) && OneTimer(s)
    ensures OneTimer(Next(s, step))
  {
    hide DoCompilation, HostSteps, Unnoticed, WatchedFileChanged;
    match step
    case Deliver(i) => ReportOneTimer(s.(undelivered := s.undelivered[..i] + s.undelivered[i + 1..]), s.undelivered[i]);
    case Start(c) => DoCompilationFrame(s, c);
    case Fire(h, c) =>
      DoCompilationFrame(s.(timers := s.timers - {h}), c);
      assert s.queued.Some? && h == s.queued.value.timerHandle;
    case _ =>
  }

  lemma {:induction false} RunPrefix(s0: State, steps: seq<Step>, i: nat)
    requires IsRun(s0, steps) && i <= |steps|
    ensures IsRun(s0, steps[..i])
    ensures i < |steps| ==> Enabled(After(s0, steps[..i]), steps[i])
  {
    if i == |steps| {
      assert steps[..i] == steps;
    } else if i < |steps| - 1 {
      RunPrefix(s0, steps[..|steps| - 1], i);
      assert steps[..|steps| - 1][..i] == steps[..i];
    }
  }

  /** The state before step `i` of a run. */
  ghost function StateAt(s0: State, steps: seq<Step>, i: nat): State
    requires IsRun(s0, steps) && i <= |steps|
  {
    RunPrefix(s0, steps, i);
    After(s0, steps[..i])
  }

  /** Delivering this event in `s` schedules a recompilation: the last one did not write the file. */
  predicate Schedules(s: State, step: Step) {
    step.Deliver? && step.i < |s.undelivered|
    && s.normalize(s.undelivered[step.i].fileName) !in s.ignoreFiles
  }

  function PathOf(s: State, step: Step): Path
    requires Schedules(s, step)
  {
    s.normalize(s.undelivered[step.i].fileName)
  }

  predicate Attempt(step: Step) {
    step.Fire? || step.Close?
  }

  /** Step `i` reported `p`, and no recompilation was attempted, nor the session closed, since. */
  ghost predicate Outstanding(s0: State, steps: seq<Step>, i: nat, p: Path)
    requires IsRun(s0, steps)
  {
    && i < |steps|
    && Schedules(StateAt(s0, steps, i), steps[i]) && PathOf(StateAt(s0, steps, i), steps[i]) == p
    && forall j :: i < j < |steps| ==> !Attempt(steps[j])
  }

  lemma OutstandingExtend(s0: State, steps: seq<Step>, i: nat, p: Path)
    requires IsRun(s0, steps) && steps != []
    ensures var init, last := steps[..|steps| - 1], steps[|steps| - 1];
            Outstanding(s0, steps, i, p) <==>
              if i == |init| then Schedules(After(s0, init), last) && PathOf(After(s0, init), last) == p
              else Outstanding(s0, init, i, p) && !Attempt(last)
  {
    hide Next, Enabled;
    var init := steps[..|steps| - 1];
    if i < |init| {
      assert init[..i] == steps[..i] && init[i] == steps[i];
    }
  }

  predicate InQueue(s: State, p: Path) {
    s.queued.Some? && p in s.queued.value.modifiedResourceFiles
  }

  lemma QueueStep(s: State, step: Step, p: Path)
    requires Enabled(s, step)
    ensures InQueue(Next(s, step), p) <==>
              !Attempt(step) && ((Schedules(s, step) && PathOf(s, step) == p) || InQueue(s, p))
  {
    if step.Start? {
      DoCompilationFrame(s, step.c);
    }
  }

  /** The queued record holds exactly the outstanding paths. */
  lemma {:induction false} QueueIsOutstanding(
      normalize: Path -> Path, disk: map<Path, string>, steps: seq<Step>, p: Path)
    requires IsRun(Initial(normalize, disk), steps)
    ensures InQueue(After(Initial(normalize, disk), steps), p)
       <==> exists i: nat :: Outstanding(Initial(normalize, disk), steps, i, p)
  {
    var s0 := Initial(normalize, disk);
    if steps != [] {
      var init, last := steps[..|steps| - 1], steps[|steps| - 1];
      QueueIsOutstanding(normalize, disk, init, p);
      QueueStep(After(s0, init), last, p);
      OutstandingExtend(s0, steps, |init|, p);
      if i: nat :| Outstanding(s0, steps, i, p) {
        OutstandingExtend(s0, steps, i, p);
      }
      if i: nat :| Outstanding(s0, init, i, p) {
        OutstandingExtend(s0, steps, i, p);
      }
    }
  }

  lemma {:induction false} ReachableOneTimer(normalize: Path -> Path, disk: map<Path, string>, steps: seq<Step>)
    requires IsRun(Initial(normalize, disk), steps)
    ensures OneTimer(After(Initial(normalize, disk), steps))
  {
    if steps != [] {
      ReachableOneTimer(normalize, disk, steps[..|steps| - 1]);
      NextOneTimer(After(Initial(normalize, disk), steps[..|steps| - 1]), steps[|steps| - 1]);
    }
  }

  /**
   * In every reachable state at most one timer is live, and one is live exactly when a reported
   * path awaits a recompilation.
   */
  lemma {:induction false} TimerIffOutstanding(normalize: Path -> Path, disk: map<Path, string>, steps: seq<Step>)
    requires IsRun(Initial(normalize, disk), steps)
    ensures var s0 := Initial(normalize, disk);
            var s := After(s0, steps);
            && |s.timers| <= 1
            && (s.timers != map[] <==> exists i: nat, p :: Outstanding(s0, steps, i, p))
  {
    var s0 := Initial(normalize, disk);
    var s := After(s0, steps);
    ReachableOneTimer(normalize, disk, steps);
    if s.queued.Some? {
      assert |s.timers.Keys| == 1;
      var p :| p in s.queued.value.modifiedResourceFiles;
      QueueIsOutstanding(normalize, disk, steps, p);
    }
    if i: nat, p :| Outstanding(s0, steps, i, p) {
      QueueIsOutstanding(normalize, disk, steps, p);
      assert s.queued.value.timerHandle in s.timers;
    }
  }

  /** Step `i` is the last one that scheduled a recompilation. */
  ghost predicate LastScheduled(s0: State, steps: seq<Step>, i: nat)
    requires IsRun(s0, steps)
  {
    && i < |steps|
    && Schedules(StateAt(s0, steps, i), steps[i])
    && forall j :: i < j < |steps| ==> !Schedules(StateAt(s0, steps, j), steps[j])
  }

  lemma ScheduledTimer(s: State, step: Step)
    requires Enabled(s, step) && OneTimer(s) && Schedules(s, step)
    ensures forall h :: h in Next(s, step).timers ==> Next(s, step).timers[h] == s.now + DELAY
  {
  }

  /** The live timer is due 250 ms after the last report that scheduled it. */
  lemma {:induction false} TimerDue(normalize: Path -> Path, disk: map<Path, string>, steps: seq<Step>) returns (i: nat)
    requires IsRun(Initial(normalize, disk), steps)
    requires After(Initial(normalize, disk), steps).timers != map[]
    ensures var s0 := Initial(normalize, disk);
            && LastScheduled(s0, steps, i)
            && forall h :: h in After(s0, steps).timers ==>
                 After(s0, steps).timers[h] == StateAt(s0, steps, i).now + 250
  {
    hide Next, Enabled, Schedules;
    var s0 := Initial(normalize, disk);
    var init, last := steps[..|steps| - 1], steps[|steps| - 1];
    ReachableOneTimer(normalize, disk, init);
    ReachableOneTimer(normalize, disk, steps);
    if Schedules(After(s0, init), last) {
      ScheduledTimer(After(s0, init), last);
      i := |init|;
    } else {
      TimerKept(After(s0, init), last);
      i := TimerDue(normalize, disk, init);
      LastScheduledExtend(s0, steps, i);
    }
  }

  lemma StateAtInit(s0: State, steps: seq<Step>, j: nat)
    requires IsRun(s0, steps) && j < |steps|
    ensures IsRun(s0, steps[..|steps| - 1])
    ensures StateAt(s0, steps, j) == StateAt(s0, steps[..|steps| - 1], j)
  {
    hide After;
    assert steps[..|steps| - 1][..j] == steps[..j];
  }

  lemma LastScheduledExtend(s0: State, steps: seq<Step>, i: nat)
    requires IsRun(s0, steps) && steps != []
    requires LastScheduled(s0, steps[..|steps| - 1], i)
    requires !Schedules(After(s0, steps[..|steps| - 1]), steps[|steps| - 1])
    ensures LastScheduled(s0, steps, i)
    ensures StateAt(s0, steps, i) == StateAt(s0, steps[..|steps| - 1], i)
  {
    hide After, Schedules;
    var init := steps[..|steps| - 1];
    StateAtInit(s0, steps, i);
    forall j | i < j < |steps| ensures !Schedules(StateAt(s0, steps, j), steps[j]) {
      StateAtInit(s0, steps, j);
      assert j < |init| ==> init[j] == steps[j];
    }
  }

  lemma TimerKept(s: State, step: Step)
    requires Enabled(s, step) && OneTimer(s) && !Schedules(s, step) && Next(s, step).timers != map[]
    ensures Next(s, step).timers == s.timers
  {
    match step
    case Start(c) => DoCompilationFrame(s, c);
    case Fire(h, c) => DoCompilationFrame(s.(timers := s.timers - {h}), c);
    case _ =>
  }

  /**
   * The first attempt after a report finds its path in the queue, and starts at least 250 ms
   * after it.
   */
  lemma {:induction false} AttemptSeesReport(
      normalize: Path -> Path, disk: map<Path, string>, steps: seq<Step>, i: nat, fire: Step)
    requires IsRun(Initial(normalize, disk), steps)
    requires fire.Fire? && Enabled(After(Initial(normalize, disk), steps), fire)
    requires i < |steps| && Schedules(StateAt(Initial(normalize, disk), steps, i), steps[i])
    requires forall j :: i < j < |steps| ==> !Attempt(steps[j])
    ensures var s0 := Initial(normalize, disk);
            && InQueue(After(s0, steps), PathOf(StateAt(s0, steps, i), steps[i]))
            && After(s0, steps).now >= StateAt(s0, steps, i).now + 250
  {
    var s0 := Initial(normalize, disk);
    var p := PathOf(StateAt(s0, steps, i), steps[i]);
    QueueIsOutstanding(normalize, disk, steps, p);
    assert Outstanding(s0, steps, i, p);
    var k := TimerDue(normalize, disk, steps);
    TimePasses(s0, steps, i, k);
  }

  lemma {:induction false} TimePasses(s0: State, steps: seq<Step>, i: nat, k: nat)
    requires IsRun(s0, steps) && i < |steps| && Schedules(StateAt(s0, steps, i), steps[i])
    requires LastScheduled(s0, steps, k)
    ensures StateAt(s0, steps, i).now <= StateAt(s0, steps, k).now
  {
    assert i <= k;
    NowGrows(s0, steps, i, k);
  }

  lemma {:induction false} NowGrows(s0: State, steps: seq<Step>, i: nat, k: nat)
    requires IsRun(s0, steps) && i <= k <= |steps|
    ensures StateAt(s0, steps, i).now <= StateAt(s0, steps, k).now
  {
    hide Next, Enabled, After, IsRun, StateAt;
    if i < k {
      NowGrows(s0, steps, i, k - 1);
      StateAtNext(s0, steps, k - 1);
      NextNow(StateAt(s0, steps, k - 1), steps[k - 1]);
    }
  }

  lemma StateAtNext(s0: State, steps: seq<Step>, k: nat)
    requires IsRun(s0, steps) && k < |steps|
    ensures Enabled(StateAt(s0, steps, k), steps[k])
    ensures StateAt(s0, steps, k + 1) == Next(StateAt(s0, steps, k), steps[k])
  {
    RunPrefix(s0, steps, k);
    RunPrefix(s0, steps, k + 1);
    assert steps[..k + 1][..k] == steps[..k];
  }

  lemma NextNow(s: State, step: Step)
    requires Enabled(s, step)
    ensures s.now <= Next(s, step).now
  {
    match step
    case Start(c) => DoCompilationFrame(s, c);
    case Fire(h, c) => DoCompilationFrame(s.(timers := s.timers - {h}), c);
    case _ =>
  }

  /** Whatever the compiler has called so far, it is told the files queued for this attempt. */
  lemma AttemptIsToldQueue(s: State, step: Step, k: nat)
    requires Enabled(s, step) && step.Fire? && k < |step.c.ops| && step.c.ops[k].GetModified?
    ensures var s1 := BeforeCompile(WithOptions(s.(timers := s.timers - {step.handle}), step.c));
            HostStep(HostSteps(s1, step.c.ops[..k]), step.c.ops[k]).1
            == Modified(if s.queued.Some? then Some(s.queued.value.modifiedResourceFiles) else None)
  {
    HostStepsFrame(BeforeCompile(WithOptions(s.(timers := s.timers - {step.handle}), step.c)), step.c.ops[..k]);
  }

  // ---------- No self-triggered recompilation ----------

  /** Steps in which nobody but the session acts: reports, time, timers. */
  predicate Quiet(steps: seq<Step>) {
    forall x :: x in steps ==> x.Deliver? || x.Tick? || x.Fire?
  }

  /** Every undelivered event is for a path to be ignored, that of a file the last compilation wrote. */
  ghost predicate OwnEventsOnly(s: State) {
    forall e :: e in s.undelivered ==> s.normalize(e.fileName) in s.ignoreFiles
  }

  ghost predicate NeverFires(s: State) {
    forall steps: seq<Step> :: Quiet(steps) && IsRun(s, steps) ==> forall x :: x in steps ==> !x.Fire?
  }

  lemma {:induction false} OwnEventsSettle(s: State, steps: seq<Step>)
    requires OwnEventsOnly(s) && s.timers == map[] && s.queued.None? && Quiet(steps) && IsRun(s, steps)
    ensures forall x :: x in steps ==> !x.Fire?
    ensures OwnEventsOnly(After(s, steps)) && After(s, steps).timers == map[] && After(s, steps).queued.None?
  {
    if steps != [] {
      var init, last := steps[..|steps| - 1], steps[|steps| - 1];
      assert Quiet(init);
      OwnEventsSettle(s, init);
      assert last in steps;
      if last.Deliver? {
        var a := After(s, init);
        assert a.undelivered[last.i] in a.undelivered;
      }
    }
  }

  /** A foreign event leads to a recompilation 250 ms after it is reported. */
  lemma ForeignEventFires(s: State, i: nat, c: Compilation) returns (steps: seq<Step>)
    requires s.phase.Watching? && i < |s.undelivered|
    requires s.normalize(s.undelivered[i].fileName) !in s.ignoreFiles
    ensures Quiet(steps) && IsRun(s, steps) && Fire(s.nextHandle, c) in steps
  {
    hide Coherent, DoCompilation, Unnoticed;
    var d, t, f := Deliver(i), Tick(DELAY), Fire(s.nextHandle, c);
    RunCons(s, [], d);
    RunCons(s, [d], t);
    RunCons(s, [d, t], f);
    assert [] + [d] == [d] && [d] + [t] == [d, t];
    steps := [d, t] + [f];
  }

  lemma RunNone(s: State)
    ensures IsRun(s, []) && After(s, []) == s
  {
  }

  lemma RunCons(s: State, steps: seq<Step>, last: Step)
    requires IsRun(s, steps) && Enabled(After(s, steps), last)
    ensures IsRun(s, steps + [last]) && After(s, steps + [last]) == Next(After(s, steps), last)
  {
    assert (steps + [last])[..|steps + [last]| - 1] == steps;
  }

  /**
   * With no timer live, watch mode left alone never recompiles again exactly when every event
   * still to be reported is for an ignored path.
   */
  lemma SettledIffOwnEvents(s: State)
    requires s.phase.Watching? && s.timers == map[] && s.queued.None?
    ensures NeverFires(s) <==> OwnEventsOnly(s)
  {
    if OwnEventsOnly(s) {
      forall steps: seq<Step> | Quiet(steps) && IsRun(s, steps) ensures forall x :: x in steps ==> !x.Fire? {
        OwnEventsSettle(s, steps);
      }
    } else {
      var e :| e in s.undelivered && s.normalize(e.fileName) !in s.ignoreFiles;
      var i :| 0 <= i < |s.undelivered| && s.undelivered[i] == e;
      var c := Compilation(ParsedConfiguration("", 0, false), [], None);
      var steps := ForeignEventFires(s, i, c);
      var f := Fire(s.nextHandle, c);
      assert f in steps && f.Fire?;
    }
  }

  /** After a recompilation that started with nothing undelivered, only its own events are left. */
  lemma {:induction false} OwnWritesIgnored(s: State, ops: seq<HostOp>)
    requires OwnEventsOnly(s)
    ensures OwnEventsOnly(HostSteps(s, ops))
  {
    if ops != [] {
      OwnWritesIgnored(s, ops[..|ops| - 1]);
      HostStepsFrame(s, ops);
      HostStepsFrame(s, ops[..|ops| - 1]);
    }
  }

  /** When nobody else acts, no recompilation follows one that started with nothing undelivered. */
  lemma NoSelfTrigger(s: State, fire: Step, rest: seq<Step>)
    requires OneTimer(s) && fire.Fire? && Enabled(s, fire) && s.undelivered == []
    requires Quiet(rest) && IsRun(Next(s, fire), rest)
    ensures forall x :: x in rest ==> !x.Fire?
  {
    var s0 := s.(timers := s.timers - {fire.handle});
    var s1 := WithOptions(s0, fire.c);
    DoCompilationFrame(s0, fire.c);
    assert s0.timers.Keys == {};
    if !s1.cachedOptions.value.hasErrors {
      OwnWritesIgnored(BeforeCompile(s1), fire.c.ops);
      HostStepsFrame(BeforeCompile(s1), fire.c.ops);
    }
    OwnEventsSettle(Next(s, fire), rest);
  }

  /** The steps from `i` on are a run from the state before step `i`. */
  lemma {:induction false} RunSuffix(s: State, steps: seq<Step>, i: nat)
    requires IsRun(s, steps) && i <= |steps|
    ensures IsRun(StateAt(s, steps, i), steps[i..])
    ensures After(StateAt(s, steps, i), steps[i..]) == After(s, steps)
    decreases |steps|
  {
    hide Next, Enabled;
    if i == |steps| {
      assert steps[..i] == steps && steps[i..] == [];
    } else {
      var init, last := steps[..|steps| - 1], steps[|steps| - 1];
      RunSuffix(s, init, i);
      StateAtInit(s, steps, i);
      assert steps[i..] == init[i..] + [last];
      RunCons(StateAt(s, steps, i), init[i..], last);
    }
  }

  lemma {:induction false} RunOneTimer(s: State, steps: seq<Step>, i: nat)
    requires OneTimer(s) && IsRun(s, steps) && i <= |steps|
    ensures OneTimer(StateAt(s, steps, i))
  {
    if i > 0 {
      RunOneTimer(s, steps, i - 1);
      StateAtNext(s, steps, i - 1);
      NextOneTimer(StateAt(s, steps, i - 1), steps[i - 1]);
    }
  }

  // ---------- What the session does not guarantee ----------

  /**
   * A file that the first compilation reads and then writes changes before the watcher is ready:
   * the cached answer stays, although no event is undelivered.
   */
  lemma FirstOutputStaysStale(normalize: Path -> Path, f: Path, data: string, config: ParsedConfiguration)
    requires !config.hasErrors
    ensures var steps := [Start(Compilation(config, [FileExists(f), WriteFile(f, data, true)], None)), Ready];
            && IsRun(Initial(normalize, map[]), steps)
            && var s := After(Initial(normalize, map[]), steps);
               s.undelivered == [] && HostStep(s, FileExists(f)).1 != Uncached(s, FileExists(f))
  {
    var s0, p := Initial(normalize, map[]), normalize(f);
    var ops := [FileExists(f), WriteFile(f, data, true)];
    var c := Compilation(config, ops, None);
    var steps := [Start(c), Ready];
    RunCons(s0, [], Start(c));
    assert [] + [Start(c)] == [Start(c)] && [Start(c)] + [Ready] == steps;
    assert ops[..1] == [FileExists(f)] && ops[..1][..0] == [];
    var b := BeforeCompile(WithOptions(s0, c));
    assert HostSteps(b, []) == b;
    var s1 := HostStep(b, FileExists(f)).0;
    assert HostSteps(b, ops[..1]) == s1;
    assert s1.fileCache[p].exists_ == Some(false);
    var s2 := HostStep(s1, ops[1]).0;
    assert HostSteps(b, ops) == s2;
    assert p in s2.disk && s2.fileCache[p].exists_ == Some(false) && s2.undelivered == [];
    RunCons(s0, [Start(c)], Ready);
  }

  /** The compiler host, if any, was made from the options in force. */
  predicate HostMatches(s: State) {
    s.cachedCompilerHost.Some? ==>
      s.cachedOptions.Some? && s.cachedCompilerHost.value == s.cachedOptions.value.options
  }

  /** Something was created or deleted, rather than changed. */
  predicate Rereads(s: State, step: Step)
    requires Enabled(s, step)
  {
    step.Deliver? && !s.undelivered[step.i].kind.Change?
  }

  lemma NextHostMatches(s: State, step: Step)
    requires Enabled(s, step) && HostMatches(s) && !Rereads(s, step)
    ensures HostMatches(Next(s, step))
  {
    if step.Start? {
      CompiledHost(s, step.c);
    } else if step.Fire? {
      CompiledHost(s.(timers := s.timers - {step.handle}), step.c);
    }
  }

  /** A compilation makes a host only if there is none, and then from the options it uses. */
  lemma CompiledHost(s: State, c: Compilation)
    ensures var s1, t := WithOptions(s, c), DoCompilation(s, c);
            && t.cachedOptions == s1.cachedOptions
            && t.cachedCompilerHost == if s.cachedCompilerHost.Some? || s1.cachedOptions.value.hasErrors
                                       then s.cachedCompilerHost else Some(s1.cachedOptions.value.options)
  {
    var s1 := WithOptions(s, c);
    if !s1.cachedOptions.value.hasErrors {
      HostStepsFrame(BeforeCompile(s1), c.ops);
    }
  }

  /** Unless creations or deletions are reported, the host is always one for the options in force. */
  lemma {:induction false} HostFollowsOptions(normalize: Path -> Path, disk: map<Path, string>, steps: seq<Step>)
    requires IsRun(Initial(normalize, disk), steps)
    requires forall k :: 0 <= k < |steps| ==> !RereadsAt(Initial(normalize, disk), steps, k)
    ensures HostMatches(After(Initial(normalize, disk), steps))
  {
    if steps != [] {
      var s0, init := Initial(normalize, disk), steps[..|steps| - 1];
      forall k | 0 <= k < |init| ensures !RereadsAt(s0, init, k) {
        assert !RereadsAt(s0, steps, k) && init[k] == steps[k];
        StateAtInit(s0, steps, k);
      }
      HostFollowsOptions(normalize, disk, init);
      assert !RereadsAt(s0, steps, |init|);
      NextHostMatches(After(s0, init), steps[|init|]);
    }
  }

  ghost predicate RereadsAt(s0: State, steps: seq<Step>, k: nat)
    requires IsRun(s0, steps) && k < |steps|
  {
    RunPrefix(s0, steps, k);
    Rereads(StateAt(s0, steps, k), steps[k])
  }

  /**
   * After such a report the configuration is read again but the host is kept: the next
   * compilation runs with a host for its options exactly when they are the old ones.
   */
  lemma RereadKeepsHost(s: State, i: nat, c: Compilation)
    requires s.phase.Watching? && i < |s.undelivered| && HostMatches(s) && s.cachedCompilerHost.Some?
    requires Rereads(s, Deliver(i)) && !c.config.hasErrors
    ensures var t := DoCompilation(Next(s, Deliver(i)), c);
            t.cachedOptions == Some(c.config)
            && (HostMatches(t) <==> c.config.options == s.cachedOptions.value.options)
  {
    CompiledHost(Next(s, Deliver(i)), c);
  }
}
