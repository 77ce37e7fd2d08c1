/** Why a watch session that is left alone stops recompiling, and after how many recompilations. */
module WatchSettles {
  import opened WatchModel
  import opened WatchProofs
  import opened WatchReads

  // ---------- What the ignore set is ----------

  /** The normalised paths of the files that the calls write. */
  function FilesWritten(normalize: Path -> Path, ops: seq<HostOp>): set<Path> {
    set i | 0 <= i < |ops| && ops[i].WriteFile? :: normalize(ops[i].fileName)
  }

  lemma {:induction false} CallsIgnoreWrites(s: State, ops: seq<HostOp>)
    ensures HostSteps(s, ops).ignoreFiles == s.ignoreFiles + FilesWritten(s.normalize, ops)
  {
    if ops != [] {
      var init, last := ops[..|ops| - 1], ops[|ops| - 1];
      CallsIgnoreWrites(s, init);
      HostStepsFrame(s, init);
      WrittenNext(s.normalize, ops);
    }
  }

  lemma WrittenNext(normalize: Path -> Path, ops: seq<HostOp>)
    requires ops != []
    ensures var init, last := ops[..|ops| - 1], ops[|ops| - 1];
            FilesWritten(normalize, ops)
            == FilesWritten(normalize, init) + if last.WriteFile? then {normalize(last.fileName)} else {}
  {
    var init, last := ops[..|ops| - 1], ops[|ops| - 1];
    forall p | p in FilesWritten(normalize, init) ensures p in FilesWritten(normalize, ops) {
      var i :| 0 <= i < |init| && init[i].WriteFile? && normalize(init[i].fileName) == p;
      assert ops[i] == init[i];
    }
    forall p | p in FilesWritten(normalize, ops)
      ensures p in FilesWritten(normalize, init) || (last.WriteFile? && p == normalize(last.fileName))
    {
      var i :| 0 <= i < |ops| && ops[i].WriteFile? && normalize(ops[i].fileName) == p;
      assert i < |init| ==> init[i] == ops[i];
    }
    if last.WriteFile? { assert ops[|ops| - 1].WriteFile?; }
  }

  predicate IsCompilation(step: Step) {
    step.Start? || step.Fire?
  }

  /** After a compilation exactly the files it wrote are ignored; a failed attempt changes nothing. */
  lemma CompilationIgnoresWrites(s: State, step: Step)
    requires Enabled(s, step) && IsCompilation(step)
    ensures Next(s, step).ignoreFiles
         == if Compiles(s, step) then FilesWritten(s.normalize, step.c.ops) else s.ignoreFiles
  {
    if Compiles(s, step) {
      CallsIgnoreWrites(CallsFrom(s, step), step.c.ops);
    }
  }

  lemma OtherStepsKeepIgnored(s: State, step: Step)
    requires Enabled(s, step) && !IsCompilation(step)
    ensures Next(s, step).ignoreFiles == s.ignoreFiles
  {
  }

  /** Step `i` is a compilation that was not cut short by errors in its options. */
  ghost predicate CompiledAt(s0: State, steps: seq<Step>, i: nat)
    requires IsRun(s0, steps) && i < |steps|
  {
    IsCompilation(steps[i]) && Compiles(StateAt(s0, steps, i), steps[i])
  }

  ghost predicate LastCompiled(s0: State, steps: seq<Step>, i: nat)
    requires IsRun(s0, steps)
  {
    && i < |steps| && CompiledAt(s0, steps, i)
    && forall j :: i < j < |steps| ==> !CompiledAt(s0, steps, j)
  }

  /** In every run exactly the files are ignored that the last compilation wrote. */
  lemma IgnoredIsLastWritten(s0: State, steps: seq<Step>, i: nat)
    requires IsRun(s0, steps) && LastCompiled(s0, steps, i)
    ensures After(s0, steps).ignoreFiles == FilesWritten(s0.normalize, steps[i].c.ops)
  {
    hide Next, Enabled, Compiles, After, IsRun, FilesWritten;
    IgnoredSince(s0, steps, i);
    StateAtNext(s0, steps, i);
    CompilationIgnoresWrites(StateAt(s0, steps, i), steps[i]);
    NormalizeAt(s0, steps, i);
  }

  lemma NormalizeAt(s0: State, steps: seq<Step>, i: nat)
    requires IsRun(s0, steps) && i <= |steps|
    ensures StateAt(s0, steps, i).normalize == s0.normalize
  {
    RunPrefix(s0, steps, i);
    KeepsNormalize(s0, steps[..i]);
  }

  /** Nothing but a compilation changes what is ignored. */
  lemma {:induction false} IgnoredSince(s0: State, steps: seq<Step>, i: nat)
    requires IsRun(s0, steps) && i < |steps| && forall j :: i < j < |steps| ==> !CompiledAt(s0, steps, j)
    ensures After(s0, steps).ignoreFiles == StateAt(s0, steps, i + 1).ignoreFiles
  {
    IgnoredBetween(s0, steps, i + 1, |steps|);
    assert steps[..|steps|] == steps;
  }

  lemma {:induction false} IgnoredBetween(s0: State, steps: seq<Step>, i: nat, k: nat)
    requires IsRun(s0, steps) && i <= k <= |steps| && forall j :: i <= j < k ==> !CompiledAt(s0, steps, j)
    ensures StateAt(s0, steps, k).ignoreFiles == StateAt(s0, steps, i).ignoreFiles
  {
    hide Next, Enabled, After, IsRun, StateAt;
    if i < k {
      IgnoredBetween(s0, steps, i, k - 1);
      StateAtNext(s0, steps, k - 1);
      var s, step := StateAt(s0, steps, k - 1), steps[k - 1];
      assert !CompiledAt(s0, steps, k - 1);
      if IsCompilation(step) { CompilationIgnoresWrites(s, step); } else { OtherStepsKeepIgnored(s, step); }
    }
  }

  /** Before any compilation nothing is ignored that was not at the start. */
  lemma {:induction false} NothingIgnored(s0: State, steps: seq<Step>)
    requires IsRun(s0, steps) && forall i :: 0 <= i < |steps| ==> !CompiledAt(s0, steps, i)
    ensures After(s0, steps).ignoreFiles == s0.ignoreFiles
  {
    hide Next, Enabled, Compiles, IsRun;
    IgnoredBetween(s0, steps, 0, |steps|);
    assert steps[..0] == [] && steps[..|steps|] == steps;
  }

  /**
   * In every run, with no timer live, a session left alone never recompiles again exactly when
   * every event still to be reported is for a file that the last compilation wrote.
   */
  lemma SettledIffOwnWrites(s0: State, steps: seq<Step>, i: nat)
    requires IsRun(s0, steps) && LastCompiled(s0, steps, i) && Idle(After(s0, steps))
    ensures NeverFires(After(s0, steps)) <==>
              forall e :: e in After(s0, steps).undelivered ==>
                s0.normalize(e.fileName) in FilesWritten(s0.normalize, steps[i].c.ops)
  {
    hide Next, Enabled, Compiles, After, IsRun, FilesWritten, NeverFires, LastCompiled;
    IgnoredIsLastWritten(s0, steps, i);
    KeepsNormalize(s0, steps);
    SettledIffOwnEvents(After(s0, steps));
  }

  /** Watching, with no recompilation scheduled. */
  predicate Idle(s: State) {
    s.phase.Watching? && s.timers == map[] && s.queued.None?
  }

  // ---------- How many recompilations follow ----------

  function Fires(steps: seq<Step>): nat {
    if steps == [] then 0 else (if steps[0].Fire? then 1 else 0) + Fires(steps[1..])
  }

  /** Steps `j` and `k` fire, and none in between. */
  predicate NextFire(steps: seq<Step>, j: nat, k: nat) {
    j < k < |steps| && steps[j].Fire? && steps[k].Fire? && forall m :: j < m < k ==> !steps[m].Fire?
  }

  ghost function LeftAt(s0: State, steps: seq<Step>, k: nat): multiset<Event>
    requires IsRun(s0, steps) && k <= |steps|
  {
    multiset(StateAt(s0, steps, k).undelivered)
  }

  /**
   * The events that each recompilation causes by its own writes arrive before the next one:
   * nothing is undelivered then that was not undelivered when it started.
   */
  ghost predicate OwnEventsArrive(s0: State, steps: seq<Step>)
    requires IsRun(s0, steps)
  {
    forall j, k :: NextFire(steps, j, k) ==> LeftAt(s0, steps, k) <= LeftAt(s0, steps, j)
  }

  /** Calls of the host leave the events for paths that are not ignored as they were. */
  lemma {:induction false} ForeignUnchanged(s: State, ops: seq<HostOp>, e: Event)
    requires s.normalize(e.fileName) !in HostSteps(s, ops).ignoreFiles
    ensures multiset(HostSteps(s, ops).undelivered)[e] == multiset(s.undelivered)[e]
  {
    if ops != [] {
      var init, last := ops[..|ops| - 1], ops[|ops| - 1];
      HostStepsFrame(s, init);
      IgnoredGrows(HostSteps(s, init), last);
      ForeignUnchanged(s, init, e);
      OneForeign(HostSteps(s, init), last, e);
    }
  }

  lemma IgnoredGrows(s: State, op: HostOp)
    ensures s.ignoreFiles <= HostStep(s, op).0.ignoreFiles
  {
  }

  lemma OneForeign(s: State, op: HostOp, e: Event)
    requires s.normalize(e.fileName) !in HostStep(s, op).0.ignoreFiles
    ensures multiset(HostStep(s, op).0.undelivered)[e] == multiset(s.undelivered)[e]
  {
  }

  /**
   * Since a firing with `u` undelivered: what is not ignored was undelivered then, and if a timer
   * is live, then less of it is left.
   */
  ghost predicate Since(u: multiset<Event>, ignored: set<Path>, s: State) {
    && s.ignoreFiles == ignored
    && (forall e: Event :: s.normalize(e.fileName) !in ignored ==> multiset(s.undelivered)[e] <= u[e])
    && (s.timers != map[] ==>
          exists e: Event :: s.normalize(e.fileName) !in ignored && multiset(s.undelivered)[e] < u[e])
  }

  lemma SinceFire(s: State, fire: Step)
    requires OneTimer(s) && fire.Fire? && Enabled(s, fire)
    ensures Since(multiset(s.undelivered), Next(s, fire).ignoreFiles, Next(s, fire))
  {
    var s1 := s.(timers := s.timers - {fire.handle});
    assert s1.timers.Keys == {};
    DoCompilationFrame(s1, fire.c);
    var t := Next(s, fire);
    forall e: Event | t.normalize(e.fileName) !in t.ignoreFiles
      ensures multiset(t.undelivered)[e] <= multiset(s.undelivered)[e]
    {
      if Compiles(s, fire) {
        CallsFromFrame(s, fire);
        ForeignUnchanged(CallsFrom(s, fire), fire.c.ops, e);
      }
    }
  }

  lemma ReportEffect(s: State, i: nat)
    requires Enabled(s, Deliver(i))
    ensures var t, x := Next(s, Deliver(i)), s.undelivered[i];
            && t.normalize == s.normalize && t.ignoreFiles == s.ignoreFiles
            && multiset(t.undelivered) == multiset(s.undelivered) - multiset{x}
            && (s.normalize(x.fileName) in s.ignoreFiles ==> t.timers == s.timers)
  {
    hide WatchedFileChanged;
    var rest := s.undelivered[..i] + s.undelivered[i + 1..];
    Removed(s.undelivered, i);
    HandlerEffect(s.(undelivered := rest), s.undelivered[i]);
  }

  lemma Removed(events: seq<Event>, i: nat)
    requires i < |events|
    ensures multiset(events[..i] + events[i + 1..]) == multiset(events) - multiset{events[i]}
  {
    assert events == events[..i] + ([events[i]] + events[i + 1..]);
  }

  lemma HandlerEffect(s: State, e: Event)
    ensures var t := WatchedFileChanged(s, e);
            && t.normalize == s.normalize && t.ignoreFiles == s.ignoreFiles && t.undelivered == s.undelivered
            && (s.normalize(e.fileName) in s.ignoreFiles ==> t.timers == s.timers)
  {
    ForgetEffect(s, e);
    DropEffect(ForgetOptions(s, e), e);
    hide ForgetOptions, DropFromCache;
  }

  /** What a report and a scheduled recompilation leave alone. */
  ghost predicate SameReports(s: State, t: State) {
    t.normalize == s.normalize && t.ignoreFiles == s.ignoreFiles && t.undelivered == s.undelivered
  }

  lemma ForgetEffect(s: State, e: Event)
    ensures SameReports(s, ForgetOptions(s, e)) && ForgetOptions(s, e).timers == s.timers
  {
  }

  lemma DropEffect(s: State, e: Event)
    ensures SameReports(s, DropFromCache(s, e)) && DropFromCache(s, e).timers == s.timers
  {
  }

  lemma {:induction false} SinceReport(u: multiset<Event>, ignored: set<Path>, s: State, i: nat)
    requires Since(u, ignored, s) && Enabled(s, Deliver(i))
    ensures Since(u, ignored, Next(s, Deliver(i)))
  {
    var x, t := s.undelivered[i], Next(s, Deliver(i));
    ReportEffect(s, i);
    hide Next, Enabled;
    assert x in multiset(s.undelivered);
    if s.normalize(x.fileName) !in ignored {
      assert multiset(t.undelivered)[x] < u[x];
    } else if s.timers != map[] {
      var e: Event :| s.normalize(e.fileName) !in ignored && multiset(s.undelivered)[e] < u[e];
      assert multiset(t.undelivered)[e] < u[e];
    }
  }

  lemma {:induction false} SinceBetween(s0: State, steps: seq<Step>, j: nat, k: nat)
    requires OneTimer(s0) && IsRun(s0, steps) && Quiet(steps) && j < k <= |steps| && steps[j].Fire?
    requires forall m :: j < m < k ==> !steps[m].Fire?
    ensures Since(LeftAt(s0, steps, j), StateAt(s0, steps, j + 1).ignoreFiles, StateAt(s0, steps, k))
  {
    hide Next, Enabled, After, IsRun, StateAt, Since, OneTimer;
    StateAtNext(s0, steps, k - 1);
    if k == j + 1 {
      RunOneTimer(s0, steps, j);
      SinceFire(StateAt(s0, steps, j), steps[j]);
    } else {
      SinceBetween(s0, steps, j, k - 1);
      var u, ignored, s := LeftAt(s0, steps, j), StateAt(s0, steps, j + 1).ignoreFiles, StateAt(s0, steps, k - 1);
      assert steps[k - 1] in steps;
      if steps[k - 1].Deliver? {
        SinceReport(u, ignored, s, steps[k - 1].i);
      } else {
        SinceTick(u, ignored, s, steps[k - 1]);
      }
    }
  }

  lemma SinceTick(u: multiset<Event>, ignored: set<Path>, s: State, tick: Step)
    requires Since(u, ignored, s) && tick.Tick? && Enabled(s, tick)
    ensures Since(u, ignored, Next(s, tick))
  {
  }

  /** From one recompilation to the next, fewer events are left. */
  lemma FewerLeft(s0: State, steps: seq<Step>, j: nat, k: nat)
    requires OneTimer(s0) && IsRun(s0, steps) && Quiet(steps) && NextFire(steps, j, k)
    requires LeftAt(s0, steps, k) <= LeftAt(s0, steps, j)
    ensures |LeftAt(s0, steps, k)| < |LeftAt(s0, steps, j)|
  {
    SinceBetween(s0, steps, j, k);
    StateAtNext(s0, steps, k);
    var s, u, v := StateAt(s0, steps, k), LeftAt(s0, steps, j), LeftAt(s0, steps, k);
    assert s.timers != map[];
    var e: Event :| s.normalize(e.fileName) !in StateAt(s0, steps, j + 1).ignoreFiles && v[e] < u[e];
    Smaller(v, u, e);
  }

  lemma Smaller(v: multiset<Event>, u: multiset<Event>, e: Event)
    requires v <= u && v[e] < u[e]
    ensures |v| < |u|
  {
    assert u == v + (u - v);
    assert e in u - v;
  }

  lemma {:induction false} NoneFire(steps: seq<Step>, a: nat, b: nat)
    requires a <= b <= |steps| && forall m :: a <= m < b ==> !steps[m].Fire?
    ensures Fires(steps[a..]) == Fires(steps[b..])
    decreases b - a
  {
    if a < b {
      assert steps[a..][1..] == steps[a + 1..];
      NoneFire(steps, a + 1, b);
    }
  }

  lemma FireCounts(steps: seq<Step>, i: nat)
    requires i < |steps| && steps[i].Fire?
    ensures Fires(steps[i..]) == 1 + Fires(steps[i + 1..])
  {
    assert steps[i..][1..] == steps[i + 1..];
  }

  lemma {:induction false} FiresFrom(s0: State, steps: seq<Step>, i: nat)
    requires OneTimer(s0) && IsRun(s0, steps) && Quiet(steps) && OwnEventsArrive(s0, steps)
    requires i < |steps| && steps[i].Fire?
    ensures Fires(steps[i..]) <= 1 + |LeftAt(s0, steps, i)|
    decreases |steps| - i
  {
    hide OneTimer, IsRun, LeftAt, Quiet;
    FireCounts(steps, i);
    if k :| i < k < |steps| && steps[k].Fire? {
      var n := FirstFire(steps, i + 1, k);
      NoneFire(steps, i + 1, n);
      assert NextFire(steps, i, n);
      FewerLeft(s0, steps, i, n);
      FiresFrom(s0, steps, n);
    } else {
      NoneFire(steps, i + 1, |steps|);
      assert steps[|steps|..] == [];
    }
  }

  lemma {:induction false} FirstFire(steps: seq<Step>, a: nat, k: nat) returns (n: nat)
    requires a <= k < |steps| && steps[k].Fire?
    ensures a <= n <= k && steps[n].Fire? && forall m :: a <= m < n ==> !steps[m].Fire?
    decreases k - a
  {
    if steps[a].Fire? { n := a; } else { n := FirstFire(steps, a + 1, k); }
  }

  /**
   * Once nobody else acts, and as long as the events of every recompilation arrive before the next
   * one, only finitely many follow: from the first on, at most one more than there were events
   * undelivered when it started.
   */
  lemma {:induction false} FinitelyManyRecompilations(s0: State, steps: seq<Step>, i: nat)
    requires OneTimer(s0) && IsRun(s0, steps) && Quiet(steps) && OwnEventsArrive(s0, steps)
    requires i < |steps| && steps[i].Fire? && forall m :: 0 <= m < i ==> !steps[m].Fire?
    ensures Fires(steps) <= 1 + |LeftAt(s0, steps, i)| <= 1 + |s0.undelivered|
  {
    FiresFrom(s0, steps, i);
    NoneFire(steps, 0, i);
    assert steps[0..] == steps;
    OnlyDelivered(s0, steps, i);
  }

  /** Until the first recompilation the undelivered events only become fewer. */
  lemma {:induction false} OnlyDelivered(s0: State, steps: seq<Step>, i: nat)
    requires IsRun(s0, steps) && Quiet(steps) && i <= |steps| && forall m :: 0 <= m < i ==> !steps[m].Fire?
    ensures |LeftAt(s0, steps, i)| <= |s0.undelivered|
  {
    hide Next, Enabled, After, IsRun;
    if i == 0 {
      assert steps[..0] == [];
      RunNone(s0);
    } else {
      OnlyDelivered(s0, steps, i - 1);
      StateAtNext(s0, steps, i - 1);
      assert steps[i - 1] in steps;
      FewerOrSame(StateAt(s0, steps, i - 1), steps[i - 1]);
    }
  }

  lemma FewerOrSame(s: State, step: Step)
    requires (step.Deliver? || step.Tick?) && Enabled(s, step)
    ensures |Next(s, step).undelivered| <= |s.undelivered|
  {
  }
}
