/** What a session holds, by what happened in its run, and that closing ends it. */
module WatchHistory {
  import opened Wrappers
  import opened WatchModel
  import opened WatchProofs
  import opened WatchReads
  import opened WatchSettles
  import opened WatchHost

  // ---------- Closing ----------

  /** Nothing reports, runs or waits any more. */
  ghost predicate Ended(s: State) {
    s.phase.Closed? && s.timers == map[] && s.queued.None?
  }

  lemma CloseEnds(s: State)
    requires OneTimer(s)
    ensures Ended(Next(s, Close)) && Next(s, Close).undelivered == s.undelivered
  {
  }

  lemma EndedStays(s: State, step: Step)
    requires Ended(s) && Enabled(s, step)
    ensures !step.Start? && !step.Deliver? && !step.Fire?
    ensures step.Ready? || (Ended(Next(s, step)) && Next(s, step).undelivered == s.undelivered)
    ensures !step.Ready?
  {
    hide Unnoticed;
  }

  lemma {:induction false} EndedFrom(s0: State, steps: seq<Step>, i: nat, k: nat)
    requires OneTimer(s0) && IsRun(s0, steps) && i < k <= |steps| && steps[i].Close?
    ensures Ended(StateAt(s0, steps, k)) && StateAt(s0, steps, k).undelivered == StateAt(s0, steps, i).undelivered
  {
    hide Next, Enabled, IsRun, After, StateAt, OneTimer;
    StateAtNext(s0, steps, k - 1);
    if k == i + 1 {
      RunOneTimer(s0, steps, i);
      CloseEnds(StateAt(s0, steps, i));
    } else {
      EndedFrom(s0, steps, i, k - 1);
      EndedStays(StateAt(s0, steps, k - 1), steps[k - 1]);
    }
  }

  /**
   * After a close no change is reported, no compilation runs, no timer is live, and nothing more
   * is going to be reported.
   */
  lemma {:induction false} ClosedForGood(normalize: Path -> Path, disk: map<Path, string>, steps: seq<Step>, i: nat, k: nat)
    requires IsRun(Initial(normalize, disk), steps) && i < k <= |steps| && steps[i].Close?
    ensures var s0 := Initial(normalize, disk);
            && StateAt(s0, steps, k).timers == map[]
            && StateAt(s0, steps, k).undelivered == StateAt(s0, steps, i).undelivered
            && (k < |steps| ==> !steps[k].Start? && !steps[k].Deliver? && !steps[k].Fire?)
  {
    var s0 := Initial(normalize, disk);
    hide Next, Enabled, IsRun, After, StateAt;
    EndedFrom(s0, steps, i, k);
    if k < |steps| {
      StateAtNext(s0, steps, k);
      EndedStays(StateAt(s0, steps, k), steps[k]);
    }
  }

  // ---------- The program and the options ----------

  /** Something was created or deleted, or the configuration changed while its options were known. */
  predicate Forgets(s: State, step: Step) {
    && step.Deliver? && step.i < |s.undelivered|
    && (s.undelivered[step.i].kind.CreateDelete? || s.undelivered[step.i].kind.CreateDeleteDir? || Resets(s, step))
  }

  lemma ProgramNext(s: State, step: Step)
    requires Enabled(s, step)
    ensures Next(s, step).cachedProgram
         == if Resets(s, step) then None
            else if IsCompilation(step) && Compiles(s, step) then step.c.program
            else s.cachedProgram
  {
    hide HostSteps, Unnoticed;
  }

  lemma OptionsNext(s: State, step: Step)
    requires Enabled(s, step)
    ensures Next(s, step).cachedOptions
         == if Forgets(s, step) then None
            else if IsCompilation(step) && s.cachedOptions.None? then Some(step.c.config)
            else s.cachedOptions
  {
    if step.Start? {
      CompiledHost(s, step.c);
    } else if step.Fire? {
      CompiledHost(s.(timers := s.timers - {step.handle}), step.c);
    }
    hide HostSteps, Unnoticed, DoCompilation;
  }

  /** Neither a compilation nor a reset happens from step `i` up to step `k`. */
  ghost predicate ProgramKept(s0: State, steps: seq<Step>, i: nat, k: nat)
    requires IsRun(s0, steps) && k <= |steps|
  {
    forall j :: i <= j < k ==> !CompiledAt(s0, steps, j) && !ResetAt(s0, steps, j)
  }

  lemma {:induction false} ProgramSince(s0: State, steps: seq<Step>, i: nat, k: nat)
    requires IsRun(s0, steps) && i <= k <= |steps| && ProgramKept(s0, steps, i, k)
    ensures StateAt(s0, steps, k).cachedProgram == StateAt(s0, steps, i).cachedProgram
  {
    hide Next, Enabled, IsRun, After, StateAt, Resets, Compiles;
    if i < k {
      ProgramSince(s0, steps, i, k - 1);
      StateAtNext(s0, steps, k - 1);
      ProgramNext(StateAt(s0, steps, k - 1), steps[k - 1]);
      assert !CompiledAt(s0, steps, k - 1) && !ResetAt(s0, steps, k - 1);
    }
  }

  /**
   * In every run the program that the next compilation is handed is that of the last compilation,
   * unless a changed configuration was reported since: then there is none.
   */
  lemma ProgramIsLast(s0: State, steps: seq<Step>, i: nat)
    requires IsRun(s0, steps) && i < |steps| && ProgramKept(s0, steps, i + 1, |steps|)
    ensures CompiledAt(s0, steps, i) ==> After(s0, steps).cachedProgram == steps[i].c.program
    ensures ResetAt(s0, steps, i) ==> After(s0, steps).cachedProgram.None?
  {
    hide Next, Enabled, IsRun, After, StateAt, Resets, Compiles;
    ProgramSince(s0, steps, i + 1, |steps|);
    EndAt(s0, steps);
    StateAtNext(s0, steps, i);
    ProgramNext(StateAt(s0, steps, i), steps[i]);
    ResetIsReport(StateAt(s0, steps, i), steps[i]);
  }

  /** A reported change of the configuration forgets program, host and options alike. */
  lemma ResetForgetsAll(s: State, step: Step)
    requires Enabled(s, step) && Resets(s, step)
    ensures var t := Next(s, step); t.cachedProgram.None? && t.cachedCompilerHost.None? && t.cachedOptions.None?
  {
    ProgramNext(s, step);
    OptionsNext(s, step);
    HostAfter(s, step);
    hide Next;
  }

  lemma NoProgramYet(s0: State, steps: seq<Step>)
    requires IsRun(s0, steps) && ProgramKept(s0, steps, 0, |steps|)
    ensures After(s0, steps).cachedProgram == s0.cachedProgram
  {
    ProgramSince(s0, steps, 0, |steps|);
    assert steps[..|steps|] == steps && steps[..0] == [];
  }

  ghost predicate ForgetsAt(s0: State, steps: seq<Step>, k: nat)
    requires IsRun(s0, steps) && k < |steps|
  {
    Forgets(StateAt(s0, steps, k), steps[k])
  }

  lemma {:induction false} OptionsSince(s0: State, steps: seq<Step>, i: nat, k: nat)
    requires IsRun(s0, steps) && i <= k <= |steps| && StateAt(s0, steps, i).cachedOptions.Some?
    requires forall j :: i <= j < k ==> !ForgetsAt(s0, steps, j)
    ensures StateAt(s0, steps, k).cachedOptions == StateAt(s0, steps, i).cachedOptions
  {
    hide Next, Enabled, IsRun, After, StateAt, Forgets;
    if i < k {
      OptionsSince(s0, steps, i, k - 1);
      StateAtNext(s0, steps, k - 1);
      OptionsNext(StateAt(s0, steps, k - 1), steps[k - 1]);
      assert !ForgetsAt(s0, steps, k - 1);
    }
  }

  lemma {:induction false} NoOptionsSince(s0: State, steps: seq<Step>, i: nat, k: nat)
    requires IsRun(s0, steps) && i <= k <= |steps| && StateAt(s0, steps, i).cachedOptions.None?
    requires forall j :: i <= j < k ==> !IsCompilation(steps[j])
    ensures StateAt(s0, steps, k).cachedOptions.None?
  {
    hide Next, Enabled, IsRun, After, StateAt, Forgets;
    if i < k {
      NoOptionsSince(s0, steps, i, k - 1);
      StateAtNext(s0, steps, k - 1);
      OptionsNext(StateAt(s0, steps, k - 1), steps[k - 1]);
    }
  }

  /** Step `i` is the first attempt to compile after step `f`, and nothing is forgotten from `i` on. */
  ghost predicate ReadAt(s0: State, steps: seq<Step>, f: int, i: nat)
    requires IsRun(s0, steps) && -1 <= f < i < |steps|
  {
    && IsCompilation(steps[i])
    && (forall j :: f < j < i ==> !IsCompilation(steps[j]))
    && (forall j :: i < j < |steps| ==> !ForgetsAt(s0, steps, j))
  }

  /**
   * In every run the options in force are those that the first attempt after they were last
   * forgotten, or after the start, has read; failed attempts read them too.
   */
  lemma {:induction false} OptionsInForce(normalize: Path -> Path, disk: map<Path, string>, steps: seq<Step>, f: int, i: nat)
    requires IsRun(Initial(normalize, disk), steps) && -1 <= f < i < |steps|
    requires f >= 0 ==> ForgetsAt(Initial(normalize, disk), steps, f)
    requires ReadAt(Initial(normalize, disk), steps, f, i)
    ensures After(Initial(normalize, disk), steps).cachedOptions == Some(steps[i].c.config)
  {
    var s0 := Initial(normalize, disk);
    hide Next, Enabled, IsRun, After, Forgets, StateAt, ForgetsAt;
    NoOptionsAfter(s0, steps, f);
    NoOptionsSince(s0, steps, f + 1, i);
    OptionsRead(s0, steps, i);
    OptionsSince(s0, steps, i + 1, |steps|);
    EndAt(s0, steps);
  }

  lemma NoOptionsAfter(s0: State, steps: seq<Step>, f: int)
    requires IsRun(s0, steps) && -1 <= f < |steps| && s0.cachedOptions.None?
    requires f >= 0 ==> ForgetsAt(s0, steps, f)
    ensures StateAt(s0, steps, f + 1).cachedOptions.None?
  {
    hide Next, Enabled, IsRun, After, Forgets, StateAt;
    if f >= 0 {
      StateAtNext(s0, steps, f);
      OptionsNext(StateAt(s0, steps, f), steps[f]);
    } else {
      StartAt(s0, steps);
    }
  }

  lemma OptionsRead(s0: State, steps: seq<Step>, i: nat)
    requires IsRun(s0, steps) && i < |steps| && IsCompilation(steps[i]) && StateAt(s0, steps, i).cachedOptions.None?
    ensures StateAt(s0, steps, i + 1).cachedOptions == Some(steps[i].c.config)
  {
    hide Next, Enabled, IsRun, After, Forgets, StateAt;
    StateAtNext(s0, steps, i);
    OptionsNext(StateAt(s0, steps, i), steps[i]);
    ForgetIsReport(StateAt(s0, steps, i), steps[i]);
  }

  lemma ForgetIsReport(s: State, step: Step)
    ensures !(Forgets(s, step) && IsCompilation(step))
  {
  }

  lemma {:induction false} EndAt(s0: State, steps: seq<Step>)
    requires IsRun(s0, steps)
    ensures StateAt(s0, steps, |steps|) == After(s0, steps)
  {
    assert steps[..|steps|] == steps;
  }

  // ---------- The cache ----------

  /** The step reports a change of the path. */
  predicate Reports(s: State, step: Step, p: Path) {
    step.Deliver? && step.i < |s.undelivered| && Covers(s, s.undelivered[step.i], p)
  }

  /** What was once answered is answered again. */
  predicate Keeps(a: CacheEntry, b: CacheEntry) {
    && (a.exists_.Some? ==> b.exists_ == a.exists_)
    && (a.sf.Some? ==> b.sf == a.sf)
    && (a.content.Some? ==> b.content == a.content)
  }

  lemma CallKeeps(s: State, op: HostOp, p: Path)
    ensures Keeps(EntryOf(s, p), EntryOf(HostStep(s, op).0, p))
  {
  }

  lemma {:induction false} CallsKeep(s: State, ops: seq<HostOp>, p: Path)
    ensures Keeps(EntryOf(s, p), EntryOf(HostSteps(s, ops), p))
  {
    if ops != [] {
      hide HostStep;
      CallsKeep(s, ops[..|ops| - 1], p);
      CallKeeps(HostSteps(s, ops[..|ops| - 1]), ops[|ops| - 1], p);
    }
  }

  lemma CompilationKeeps(s: State, step: Step, p: Path)
    requires Enabled(s, step) && IsCompilation(step)
    ensures Keeps(EntryOf(s, p), EntryOf(Next(s, step), p))
  {
    if Compiles(s, step) {
      CallsKeep(CallsFrom(s, step), step.c.ops, p);
      CallsFromFrame(s, step);
    }
  }

  lemma StepKeepsEntry(s: State, step: Step, p: Path)
    requires Enabled(s, step)
    ensures if Reports(s, step, p) then EntryOf(Next(s, step), p) == EMPTY_ENTRY
            else Keeps(EntryOf(s, p), EntryOf(Next(s, step), p))
  {
    if IsCompilation(step) {
      CompilationKeeps(s, step, p);
    }
    hide HostSteps, Unnoticed, DoCompilation;
  }

  ghost predicate ReportedAt(s0: State, steps: seq<Step>, k: nat, p: Path)
    requires IsRun(s0, steps) && k < |steps|
  {
    Reports(StateAt(s0, steps, k), steps[k], p)
  }

  /**
   * In every run an answer stays in the cache until a change that covers its path is reported, so
   * that the original host is asked at most once in between; the report then drops the answers.
   */
  lemma {:induction false} KeptUntilReported(s0: State, steps: seq<Step>, i: nat, k: nat, p: Path)
    requires IsRun(s0, steps) && i <= k <= |steps|
    ensures (forall j :: i <= j < k ==> !ReportedAt(s0, steps, j, p)) ==>
              Keeps(EntryOf(StateAt(s0, steps, i), p), EntryOf(StateAt(s0, steps, k), p))
    ensures i < k && ReportedAt(s0, steps, k - 1, p) ==>
              EntryOf(StateAt(s0, steps, k), p) == CacheEntry(None, None, None)
  {
    hide Next, Enabled, IsRun, After, StateAt, Reports, EntryOf;
    if i < k {
      KeptUntilReported(s0, steps, i, k - 1, p);
      StateAtNext(s0, steps, k - 1);
      StepKeepsEntry(StateAt(s0, steps, k - 1), steps[k - 1], p);
      assert ReportedAt(s0, steps, k - 1, p) == Reports(StateAt(s0, steps, k - 1), steps[k - 1], p);
    }
  }
}
