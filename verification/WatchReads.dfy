/** What the caching host answers during and after a compilation, exactly. */
module WatchReads {
  import opened Wrappers
  import opened WatchModel
  import opened WatchProofs

  predicate IsWrite(s: State, op: HostOp, p: Path) {
    op.WriteFile? && s.normalize(op.fileName) == p
  }

  // ---------- The history of one path during a sequence of calls ----------

  /** The text of the file after the calls: the last one written, or the one it had before. */
  function TextAfter(s: State, ops: seq<HostOp>, p: Path): Option<string> {
    if ops == [] then DiskText(s, p)
    else
      var init, last := ops[..|ops| - 1], ops[|ops| - 1];
      if IsWrite(s, last, p) then Some(last.data) else TextAfter(s, init, p)
  }

  /** What the first existence check of the path said, counting one that is cached already. */
  function FirstProbe(s: State, ops: seq<HostOp>, p: Path): Option<bool> {
    if ops == [] then EntryOf(s, p).exists_
    else
      var init, last := ops[..|ops| - 1], ops[|ops| - 1];
      if FirstProbe(s, init, p).Some? then FirstProbe(s, init, p)
      else if last.FileExists? && s.normalize(last.fileName) == p then Some(TextAfter(s, init, p).Some?)
      else None
  }

  /** The text that the first successful read of the path gave. */
  function FirstText(s: State, ops: seq<HostOp>, p: Path): Option<string> {
    if ops == [] then EntryOf(s, p).content
    else
      var init, last := ops[..|ops| - 1], ops[|ops| - 1];
      if FirstText(s, init, p).Some? then FirstText(s, init, p)
      else if last.ReadFile? && s.normalize(last.fileName) == p then TextAfter(s, init, p)
      else None
  }

  /** The source file that the first successful request for the path gave. */
  function FirstParse(s: State, ops: seq<HostOp>, p: Path): Option<SourceFile> {
    if ops == [] then EntryOf(s, p).sf
    else
      var init, last := ops[..|ops| - 1], ops[|ops| - 1];
      if FirstParse(s, init, p).Some? then FirstParse(s, init, p)
      else if last.GetSourceFile? && s.normalize(last.fileName) == p && TextAfter(s, init, p).Some? then
        Some(SourceFile(TextAfter(s, init, p).value, last.languageVersion))
      else None
  }

  ghost predicate HasHistory(s: State, ops: seq<HostOp>, p: Path, t: State) {
    && t.normalize == s.normalize
    && DiskText(t, p) == TextAfter(s, ops, p)
    && EntryOf(t, p) == CacheEntry(FirstProbe(s, ops, p), FirstParse(s, ops, p), FirstText(s, ops, p))
  }

  lemma {:induction false} EntryIsHistory(s: State, ops: seq<HostOp>, p: Path)
    ensures HasHistory(s, ops, p, HostSteps(s, ops))
  {
    if ops != [] {
      var init, last := ops[..|ops| - 1], ops[|ops| - 1];
      EntryIsHistory(s, init, p);
      HistoryStep(s, ops, p, HostSteps(s, init));
    }
  }

  lemma HistoryStep(s: State, ops: seq<HostOp>, p: Path, t: State)
    requires ops != [] && HasHistory(s, ops[..|ops| - 1], p, t)
    ensures HasHistory(s, ops, p, HostStep(t, ops[|ops| - 1]).0)
  {
    hide HostStep;
    var op := ops[|ops| - 1];
    OneCall(t, op, p);
  }

  /** What one call does to the text and the entry of a path. */
  lemma OneCall(t: State, op: HostOp, p: Path)
    ensures var u := HostStep(t, op).0;
            && u.normalize == t.normalize
            && DiskText(u, p) == (if IsWrite(t, op, p) then Some(op.data) else DiskText(t, p))
            && EntryOf(u, p) == EntryAfter(t, op, p)
  {
  }

  function EntryAfter(t: State, op: HostOp, p: Path): CacheEntry {
    var e := EntryOf(t, p);
    if !IsRead(op) || t.normalize(op.fileName) != p then e
    else match op
      case FileExists(_) => if e.exists_.Some? then e else e.(exists_ := Some(DiskText(t, p).Some?))
      case ReadFile(_) => if e.content.Some? then e else e.(content := DiskText(t, p))
      case GetSourceFile(_, version) =>
        if e.sf.Some? || DiskText(t, p).None? then e else e.(sf := Some(SourceFile(DiskText(t, p).value, version)))
  }

  // ---------- When a read is right ----------

  /** A write of the path comes after a check of its existence that no other write precedes. */
  predicate ProbedThenWritten(s: State, ops: seq<HostOp>, p: Path) {
    exists j :: 0 <= j < |ops| && IsWrite(s, ops[j], p) && ProbedBefore(s, ops, p, j)
  }

  predicate ProbedBefore(s: State, ops: seq<HostOp>, p: Path, j: nat)
    requires j <= |ops|
  {
    || EntryOf(s, p).exists_.Some?
    || exists i :: 0 <= i < j && ops[i].FileExists? && s.normalize(ops[i].fileName) == p && !Writes(s, ops[..i], p)
  }

  /**
   * An existence check is right unless a file that was missing was checked and then written. The
   * text of a file is right unless the first successful read gave another one, and so is a source
   * file unless the first one had another text or language version.
   */
  predicate Current(s: State, ops: seq<HostOp>, op: HostOp)
    requires IsRead(op)
  {
    var p := s.normalize(op.fileName);
    match op
    case FileExists(_) => p in s.disk || !ProbedThenWritten(s, ops, p)
    case ReadFile(_) => FirstText(s, ops, p).None? || FirstText(s, ops, p) == TextAfter(s, ops, p)
    case GetSourceFile(_, version) =>
      FirstParse(s, ops, p).None?
      || (FirstParse(s, ops, p).value.languageVersion == version
          && Some(FirstParse(s, ops, p).value.text) == TextAfter(s, ops, p))
  }

  lemma {:induction false} TextAfterIs(s: State, ops: seq<HostOp>, p: Path)
    ensures TextAfter(s, ops, p).Some? <==> p in s.disk || Writes(s, ops, p)
  {
    if ops != [] {
      var init := ops[..|ops| - 1];
      TextAfterIs(s, init, p);
      WritesNext(s, ops, p);
    }
  }

  lemma WritesNext(s: State, ops: seq<HostOp>, p: Path)
    requires ops != []
    ensures Writes(s, ops, p) <==> Writes(s, ops[..|ops| - 1], p) || IsWrite(s, ops[|ops| - 1], p)
  {
    var init := ops[..|ops| - 1];
    if i :| 0 <= i < |init| && init[i].WriteFile? && s.normalize(init[i].fileName) == p {
      assert ops[i] == init[i];
    }
  }

  predicate SaysNo(answer: Option<bool>) { answer.Some? && !answer.value }

  predicate SaysYes(answer: Option<bool>) { answer.Some? && answer.value }

  lemma ProbedAtStart(s: State, p: Path)
    ensures ProbedBefore(s, [], p, 0) <==> EntryOf(s, p).exists_.Some?
  {
  }

  /** The first check of a missing file said no just if it came before the first write. */
  lemma {:induction false} FirstProbeIs(s: State, ops: seq<HostOp>, p: Path)
    requires Fresh(EntryOf(s, p), p, s.disk)
    ensures p in s.disk ==> !SaysNo(FirstProbe(s, ops, p))
    ensures p !in s.disk ==> (SaysNo(FirstProbe(s, ops, p)) <==> ProbedBefore(s, ops, p, |ops|))
  {
    hide ProbedBefore, Writes;
    if ops == [] {
      ProbedAtStart(s, p);
    } else {
      var init := ops[..|ops| - 1];
      FirstProbeIs(s, init, p);
      TextAfterIs(s, init, p);
      ProbedNext(s, ops, p);
      if SaysYes(FirstProbe(s, init, p)) { FirstProbeTrue(s, init, p); }
    }
  }

  /** A check of a missing file says yes only after a write. */
  lemma {:induction false} FirstProbeTrue(s: State, ops: seq<HostOp>, p: Path)
    requires Fresh(EntryOf(s, p), p, s.disk) && SaysYes(FirstProbe(s, ops, p))
    ensures p in s.disk || Writes(s, ops, p)
  {
    if ops != [] {
      var init := ops[..|ops| - 1];
      WritesNext(s, ops, p);
      if FirstProbe(s, init, p).Some? { FirstProbeTrue(s, init, p); } else { TextAfterIs(s, init, p); }
    }
  }

  lemma ProbedNext(s: State, ops: seq<HostOp>, p: Path)
    requires ops != []
    ensures var init, last := ops[..|ops| - 1], ops[|ops| - 1];
            ProbedBefore(s, ops, p, |ops|) <==>
              || ProbedBefore(s, init, p, |init|)
              || (last.FileExists? && s.normalize(last.fileName) == p && !Writes(s, init, p))
  {
    var init := ops[..|ops| - 1];
    forall i | 0 <= i < |init| ensures init[..i] == ops[..i] && init[i] == ops[i] {
    }
  }

  lemma NoneBefore(s: State, ops: seq<HostOp>, i: nat, p: Path)
    requires i <= |ops|
    ensures Writes(s, ops[..i], p) || forall j :: 0 <= j < i ==> !IsWrite(s, ops[j], p)
  {
    if j :| 0 <= j < i && IsWrite(s, ops[j], p) {
      assert ops[..i][j] == ops[j];
    }
  }

  lemma {:induction false} ProbedThenWrittenIs(s: State, ops: seq<HostOp>, p: Path)
    ensures ProbedThenWritten(s, ops, p) <==> ProbedBefore(s, ops, p, |ops|) && Writes(s, ops, p)
  {
    if ProbedBefore(s, ops, p, |ops|) && Writes(s, ops, p) {
      if EntryOf(s, p).exists_.Some? {
        var j :| 0 <= j < |ops| && ops[j].WriteFile? && s.normalize(ops[j].fileName) == p;
        assert IsWrite(s, ops[j], p) && ProbedBefore(s, ops, p, j);
      } else {
        var i :| 0 <= i < |ops| && ops[i].FileExists? && s.normalize(ops[i].fileName) == p && !Writes(s, ops[..i], p);
        var j :| 0 <= j < |ops| && ops[j].WriteFile? && s.normalize(ops[j].fileName) == p;
        NoneBefore(s, ops, i, p);
        assert IsWrite(s, ops[j], p) && ProbedBefore(s, ops, p, j);
      }
    }
    if j :| 0 <= j < |ops| && IsWrite(s, ops[j], p) && ProbedBefore(s, ops, p, j) {
      assert Writes(s, ops, p);
    }
  }

  /**
   * After any calls, from a state with nothing pending for the path, a read answers like the
   * original host exactly in the cases of `Current`.
   */
  lemma ReadIsCurrentIff(s: State, ops: seq<HostOp>, op: HostOp)
    requires Coherent(s) && IsRead(op) && !Pending(s, s.normalize(op.fileName))
    ensures var t := HostSteps(s, ops);
            HostStep(t, op).1 == Uncached(t, op) <==> Current(s, ops, op)
  {
    var p := s.normalize(op.fileName);
    assert Fresh(EntryOf(s, p), p, s.disk);
    EntryIsHistory(s, ops, p);
    if op.FileExists? {
      FirstProbeIs(s, ops, p);
      TextAfterIs(s, ops, p);
      ProbedThenWrittenIs(s, ops, p);
      if SaysYes(FirstProbe(s, ops, p)) { FirstProbeTrue(s, ops, p); }
    }
  }

  // ---------- Compilations ----------

  /** The state in which the compilation of a step makes its calls. */
  function CallsFrom(s: State, step: Step): State
    requires step.Start? || step.Fire?
  {
    BeforeCompile(WithOptions(if step.Fire? then s.(timers := s.timers - {step.handle}) else s, step.c))
  }

  predicate Compiles(s: State, step: Step)
    requires step.Start? || step.Fire?
  {
    !WithOptions(s, step.c).cachedOptions.value.hasErrors
  }

  lemma CallsFromFrame(s: State, step: Step)
    requires step.Start? || step.Fire?
    ensures var t := CallsFrom(s, step);
            && t.normalize == s.normalize && t.fileCache == s.fileCache && t.disk == s.disk
            && t.undelivered == s.undelivered && t.missed == s.missed
  {
  }

  lemma PendingFrame(s: State, t: State, p: Path)
    requires t.normalize == s.normalize && t.undelivered == s.undelivered && t.missed == s.missed
    ensures Pending(s, p) <==> Pending(t, p)
  {
    forall e | e in s.undelivered ensures Covers(s, e, p) == Covers(t, e, p) {
    }
  }

  /**
   * In every run, whenever the first compilation or a recompilation has made any number of its
   * calls, a read of a path that had nothing pending when it started answers like the original
   * host exactly in the cases of `Current`; own writes are no exception.
   */
  lemma CompilationReadsExactly(
      normalize: Path -> Path, disk: map<Path, string>, steps: seq<Step>, step: Step, k: nat, op: HostOp)
    requires IsRun(Initial(normalize, disk), steps) && (step.Start? || step.Fire?)
    requires Enabled(After(Initial(normalize, disk), steps), step)
    requires Compiles(After(Initial(normalize, disk), steps), step) && k <= |step.c.ops|
    requires IsRead(op) && !Pending(After(Initial(normalize, disk), steps), normalize(op.fileName))
    ensures var s := CallsFrom(After(Initial(normalize, disk), steps), step);
            var t := HostSteps(s, step.c.ops[..k]);
            HostStep(t, op).1 == Uncached(t, op) <==> Current(s, step.c.ops[..k], op)
  {
    var a := After(Initial(normalize, disk), steps);
    var s := CallsFrom(a, step);
    CacheCoherent(normalize, disk, steps);
    KeepsNormalize(Initial(normalize, disk), steps);
    CallsFromFrame(a, step);
    CoherentFrame(a, s);
    PendingFrame(a, s, normalize(op.fileName));
    ReadIsCurrentIff(s, step.c.ops[..k], op);
  }

  lemma {:induction false} KeepsNormalize(s: State, steps: seq<Step>)
    requires IsRun(s, steps)
    ensures After(s, steps).normalize == s.normalize
  {
    if steps != [] {
      var a, last := After(s, steps[..|steps| - 1]), steps[|steps| - 1];
      KeepsNormalize(s, steps[..|steps| - 1]);
      match last
      case Start(c) => DoCompilationFrame(a, c);
      case Fire(h, c) => DoCompilationFrame(a.(timers := a.timers - {h}), c);
      case _ =>
    }
  }

  /**
   * When watching starts after the first compilation, nothing is undelivered, and reads are right
   * exactly in the cases of `Current` for the calls of that compilation.
   */
  lemma FirstCompilationLeaves(normalize: Path -> Path, disk: map<Path, string>, c: Compilation, op: HostOp)
    requires !c.config.hasErrors && IsRead(op)
    ensures var s0, steps := Initial(normalize, disk), [Start(c), Ready];
            && IsRun(s0, steps) && After(s0, steps).undelivered == []
            && (HostStep(After(s0, steps), op).1 == Uncached(After(s0, steps), op)
                <==> Current(CallsFrom(s0, Start(c)), c.ops, op))
  {
    var s0 := Initial(normalize, disk);
    RunCons(s0, [], Start(c));
    RunCons(s0, [Start(c)], Ready);
    assert [] + [Start(c)] == [Start(c)] && [Start(c)] + [Ready] == [Start(c), Ready];
    CompilationReadsExactly(normalize, disk, [], Start(c), |c.ops|, op);
    assert c.ops[..|c.ops|] == c.ops;
    NothingUndelivered(CallsFrom(s0, Start(c)), c.ops);
  }

  lemma {:induction false} NothingUndelivered(s: State, ops: seq<HostOp>)
    requires !s.phase.Watching? && s.undelivered == []
    ensures HostSteps(s, ops).undelivered == []
  {
    if ops != [] {
      NothingUndelivered(s, ops[..|ops| - 1]);
      HostStepsFrame(s, ops[..|ops| - 1]);
    }
  }
}
