/** Which reports of the watcher reach the compiler. */
module WatchReports {
  import opened Wrappers
  import opened WatchModel
  import opened WatchProofs
  import opened WatchReads

  /** The answers to the calls that a compilation makes; it makes none if its options have errors. */
  function Answers(s: State, step: Step): seq<HostResult>
    requires step.Start? || step.Fire?
  {
    if Compiles(s, step) then AnswersTo(CallsFrom(s, step), step.c.ops) else []
  }

  function AnswersTo(s: State, ops: seq<HostOp>): (r: seq<HostResult>)
    ensures |r| == |ops|
  {
    if ops == [] then []
    else
      var init, last := ops[..|ops| - 1], ops[|ops| - 1];
      AnswersTo(s, init) + [HostStep(HostSteps(s, init), last).1]
  }

  /** The compiler asked for the modified files and `p` was among them. */
  predicate Told(answers: seq<HostResult>, p: Path) {
    exists k :: 0 <= k < |answers| && TellsOf(answers[k], p)
  }

  predicate TellsOf(answer: HostResult, p: Path) {
    answer.Modified? && answer.files.Some? && p in answer.files.value
  }

  predicate AsksForModified(ops: seq<HostOp>) {
    exists k :: 0 <= k < |ops| && ops[k].GetModified?
  }

  lemma {:induction false} AnswersAt(s: State, ops: seq<HostOp>, k: nat)
    requires k < |ops|
    ensures AnswersTo(s, ops)[k] == HostStep(HostSteps(s, ops[..k]), ops[k]).1
  {
    var init := ops[..|ops| - 1];
    if k < |init| {
      AnswersAt(s, init, k);
      assert init[..k] == ops[..k] && init[k] == ops[k];
    }
  }

  /** A compilation that asks is told of a path exactly when the path is in the queue. */
  lemma ToldIffQueued(s: State, step: Step, p: Path)
    requires (step.Start? || step.Fire?) && Compiles(s, step)
    ensures Told(Answers(s, step), p) <==> AsksForModified(step.c.ops) && InQueue(s, p)
  {
    hide HostSteps;
    var c, ops := CallsFrom(s, step), step.c.ops;
    forall k | 0 <= k < |ops| ensures TellsOf(Answers(s, step)[k], p) <==> ops[k].GetModified? && InQueue(s, p) {
      AnswersAt(c, ops, k);
      HostStepsFrame(c, ops[..k]);
    }
    if AsksForModified(ops) && InQueue(s, p) {
      var k :| 0 <= k < |ops| && ops[k].GetModified?;
      assert TellsOf(Answers(s, step)[k], p);
    }
  }

  /**
   * The first attempt after a report offers its path to the compiler exactly when the options in
   * force then have no errors; either way the path is no longer queued afterwards.
   */
  lemma {:induction false} ReportOfferedIff(
      normalize: Path -> Path, disk: map<Path, string>, steps: seq<Step>, i: nat, fire: Step)
    requires IsRun(Initial(normalize, disk), steps)
    requires fire.Fire? && Enabled(After(Initial(normalize, disk), steps), fire) && AsksForModified(fire.c.ops)
    requires i < |steps| && Schedules(StateAt(Initial(normalize, disk), steps, i), steps[i])
    requires forall j :: i < j < |steps| ==> !Attempt(steps[j])
    ensures var s0 := Initial(normalize, disk);
            var s, p := After(s0, steps), PathOf(StateAt(s0, steps, i), steps[i]);
            && (Told(Answers(s, fire), p) <==> Compiles(s, fire))
            && !InQueue(Next(s, fire), p)
  {
    var s0 := Initial(normalize, disk);
    var s, p := After(s0, steps), PathOf(StateAt(s0, steps, i), steps[i]);
    AttemptSeesReport(normalize, disk, steps, i, fire);
    if Compiles(s, fire) { ToldIffQueued(s, fire, p); }
  }

  /** An attempt tells the compiler of a path exactly when it compiles and the path was reported since the last one. */
  lemma {:induction false} ToldIsOutstanding(
      normalize: Path -> Path, disk: map<Path, string>, steps: seq<Step>, fire: Step, p: Path)
    requires IsRun(Initial(normalize, disk), steps)
    requires fire.Fire? && Enabled(After(Initial(normalize, disk), steps), fire) && AsksForModified(fire.c.ops)
    ensures var s := After(Initial(normalize, disk), steps);
            Told(Answers(s, fire), p) <==>
              Compiles(s, fire) && exists i: nat :: Outstanding(Initial(normalize, disk), steps, i, p)
  {
    var s := After(Initial(normalize, disk), steps);
    QueueIsOutstanding(normalize, disk, steps, p);
    if Compiles(s, fire) { ToldIffQueued(s, fire, p); }
  }

  // ---------- A report that is lost ----------

  const A: Path := "a.html"
  const B: Path := "b.ts"
  const GOOD: ParsedConfiguration := ParsedConfiguration("tsconfig.json", 0, false)
  const BAD: ParsedConfiguration := ParsedConfiguration("tsconfig.json", 0, true)
  const START: State := Initial(p => p, map[A := "1", B := "1"])

  /** `a.html` changes and `b.ts` is deleted; both are reported, and 250 ms pass. */
  const EDIT: seq<Step> := [
    Start(Compilation(GOOD, [], Some(1))), Ready,
    Mutate(map[A := "2"], [Event(Change, A), Event(CreateDelete, B)]), Deliver(0), Deliver(0), Tick(DELAY)]

  /** The attempt reads a configuration with errors. */
  const FAILED: Step := Fire(1, Compilation(BAD, [GetModified], None))

  /** `b.ts` is created again and reported, and 250 ms pass. */
  const REPAIR: seq<Step> := [Mutate(map[A := "2", B := "1"], [Event(CreateDelete, B)]), Deliver(0), Tick(DELAY)]

  const LAST: Step := Fire(2, Compilation(GOOD, [GetModified], Some(2)))

  /** The part of a state that the example follows. */
  datatype Glimpse = Glimpse(
    program: Option<nat>, host: Option<nat>, options: Option<ParsedConfiguration>, queued: Option<Queued>,
    ignored: set<Path>, phase: Phase, undelivered: seq<Event>, timers: map<nat, nat>, nextHandle: nat, now: nat)

  function Look(s: State): Glimpse {
    Glimpse(s.cachedProgram, s.cachedCompilerHost, s.cachedOptions, s.queued, s.ignoreFiles,
            s.phase, s.undelivered, s.timers, s.nextHandle, s.now)
  }

  ghost predicate Keeps(s: State) {
    s.normalize(A) == A && s.normalize(B) == B && s.normalize(GOOD.project) == GOOD.project
  }

  /** One more step of a run. */
  lemma Onward(steps: seq<Step>, k: nat)
    requires k < |steps| && IsRun(START, steps[..k]) && Enabled(After(START, steps[..k]), steps[k])
    ensures IsRun(START, steps[..k + 1])
    ensures After(START, steps[..k + 1]) == Next(After(START, steps[..k]), steps[k])
  {
    RunCons(START, steps[..k], steps[k]);
    assert steps[..k] + [steps[k]] == steps[..k + 1];
  }

  lemma StartStep(s: State)
    requires Look(s) == Look(START) && Keeps(s)
    ensures Enabled(s, EDIT[0]) && Keeps(Next(s, EDIT[0]))
    ensures Look(Next(s, EDIT[0]))
         == Look(START).(program := Some(1), host := Some(0), options := Some(GOOD), phase := Compiled)
  {
  }

  lemma MutateStep(s: State, disk: map<Path, string>, events: seq<Event>)
    requires s.phase.Watching? && Keeps(s)
    ensures Keeps(Next(s, Mutate(disk, events)))
    ensures Look(Next(s, Mutate(disk, events))) == Look(s).(undelivered := s.undelivered + events)
  {
  }

  /** The report of the first event, of a path that is not ignored. */
  lemma ReportStep(s: State, event: Event, rest: seq<Event>)
    requires s.phase.Watching? && s.undelivered == [event] + rest && s.ignoreFiles == {} && Keeps(s)
    requires event.fileName in {A, B, GOOD.project} && !event.kind.CreateDeleteDir?
    requires event == Event(Change, GOOD.project) ==> s.cachedOptions.None?
    requires s.cachedOptions.Some? ==> s.cachedOptions.value.project == GOOD.project
    requires if s.queued.Some? then s.timers.Keys == {s.queued.value.timerHandle} else s.timers == map[]
    ensures Enabled(s, Deliver(0)) && Keeps(Next(s, Deliver(0)))
    ensures var files := if s.queued.Some? then s.queued.value.modifiedResourceFiles else {};
            Look(Next(s, Deliver(0)))
            == Look(s).(options := if event.kind.Change? then s.cachedOptions else None,
                        queued := Some(Queued(s.nextHandle, files + {event.fileName})),
                        undelivered := rest, timers := map[s.nextHandle := s.now + DELAY],
                        nextHandle := s.nextHandle + 1)
  {
    assert s.undelivered[..0] + s.undelivered[0 + 1..] == rest;
    if s.queued.Some? { assert s.timers - {s.queued.value.timerHandle} == map[]; }
  }

  lemma TickStep(s: State)
    requires Keeps(s)
    ensures Keeps(Next(s, Tick(DELAY))) && Look(Next(s, Tick(DELAY))) == Look(s).(now := s.now + DELAY)
  {
  }

  lemma EditStart()
    ensures EDIT[..2] == [EDIT[0], Ready] && IsRun(START, EDIT[..2]) && Keeps(After(START, EDIT[..2]))
    ensures Look(After(START, EDIT[..2]))
         == Glimpse(Some(1), Some(0), Some(GOOD), None, {}, Watching, [], map[], 0, 0)
  {
    assert EDIT[..0] == [];
    StartStep(START);
    Onward(EDIT, 0);
    Onward(EDIT, 1);
  }

  lemma EditRun()
    ensures IsRun(START, EDIT) && Keeps(After(START, EDIT))
    ensures Look(After(START, EDIT))
         == Glimpse(Some(1), Some(0), None, Some(Queued(1, {A, B})), {}, Watching, [], map[1 := DELAY], 2, DELAY)
  {
    hide Next, IsRun, After;
    var a, b := Event(Change, A), Event(CreateDelete, B);
    EditStart();
    EditSteps(a, b);
  }

  lemma EditSteps(a: Event, b: Event)
    requires a == Event(Change, A) && b == Event(CreateDelete, B)
    requires IsRun(START, EDIT[..2]) && Keeps(After(START, EDIT[..2]))
    requires Look(After(START, EDIT[..2])) == Glimpse(Some(1), Some(0), Some(GOOD), None, {}, Watching, [], map[], 0, 0)
    ensures IsRun(START, EDIT) && Keeps(After(START, EDIT))
    ensures Look(After(START, EDIT))
         == Glimpse(Some(1), Some(0), None, Some(Queued(1, {A, B})), {}, Watching, [], map[1 := DELAY], 2, DELAY)
  {
    hide Next, IsRun, After, Unnoticed;
    MutateStep(After(START, EDIT[..2]), map[A := "2"], [a, b]);
    Onward(EDIT, 2);
    assert [] + [a, b] == [a] + [b] == [a, b];
    ReportStep(After(START, EDIT[..3]), a, [b]);
    Onward(EDIT, 3);
    assert [b] == [b] + [] && {} + {A} == {A};
    ReportStep(After(START, EDIT[..4]), b, []);
    Onward(EDIT, 4);
    assert {A} + {B} == {A, B};
    TickStep(After(START, EDIT[..5]));
    Onward(EDIT, 5);
    assert EDIT[..6] == EDIT;
  }

  /** The failed attempt tells the compiler nothing, drops the queue and keeps the old program. */
  lemma FailedAttempt(s: State)
    requires Look(s) == Glimpse(Some(1), Some(0), None, Some(Queued(1, {A, B})), {}, Watching, [], map[1 := DELAY], 2, DELAY)
    requires Keeps(s)
    ensures Enabled(s, FAILED) && Answers(s, FAILED) == [] && Keeps(Next(s, FAILED))
    ensures Look(Next(s, FAILED)) == Glimpse(Some(1), Some(0), Some(BAD), None, {}, Watching, [], map[], 2, DELAY)
  {
    assert map[1 := DELAY] - {1} == map[];
  }

  lemma RepairRun(run: seq<Step>)
    requires |run| == 10 && run[7..] == REPAIR && IsRun(START, run[..7]) && Keeps(After(START, run[..7]))
    requires Look(After(START, run[..7])) == Glimpse(Some(1), Some(0), Some(BAD), None, {}, Watching, [], map[], 2, DELAY)
    ensures IsRun(START, run)
    ensures Look(After(START, run))
         == Glimpse(Some(1), Some(0), None, Some(Queued(2, {B})), {}, Watching, [], map[2 := 2 * DELAY], 3, 2 * DELAY)
  {
    hide Next, IsRun, After, Unnoticed;
    var b := Event(CreateDelete, B);
    assert run[7] == REPAIR[0] && run[8] == REPAIR[1] && run[9] == REPAIR[2] && run[..10] == run;
    MutateStep(After(START, run[..7]), map[A := "2", B := "1"], [b]);
    Onward(run, 7);
    assert [] + [b] == [b] + [] == [b] && {} + {B} == {B};
    ReportStep(After(START, run[..8]), b, []);
    Onward(run, 8);
    TickStep(After(START, run[..9]));
    Onward(run, 9);
  }

  const RUN: seq<Step> := EDIT + [FAILED] + REPAIR

  /**
   * A report that is lost: the change of `a.html` is reported, the next attempt fails on its
   * configuration, and the compilation after that, which still starts from the old program, is
   * told of `b.ts` only. Nothing is queued or undelivered any more.
   */
  lemma LostReport()
    ensures IsRun(START, EDIT) && InQueue(After(START, EDIT), A) && Enabled(After(START, EDIT), FAILED)
    ensures !Told(Answers(After(START, EDIT), FAILED), A)
    ensures IsRun(START, RUN) && Enabled(After(START, RUN), LAST)
    ensures After(START, RUN).cachedProgram == Some(1)
    ensures var answers := Answers(After(START, RUN), LAST); Told(answers, B) && !Told(answers, A)
    ensures var end := Next(After(START, RUN), LAST); end.queued.None? && end.timers == map[] && end.undelivered == []
  {
    EditRun();
    FailedAttempt(After(START, EDIT));
    assert RUN[..6] == EDIT && RUN[6] == FAILED && RUN[7..] == REPAIR;
    Onward(RUN, 6);
    RepairRun(RUN);
    var s := After(START, RUN);
    assert AsksForModified(LAST.c.ops) by { assert LAST.c.ops[0].GetModified?; }
    ToldIffQueued(s, LAST, A);
    ToldIffQueued(s, LAST, B);
    LastAttempt(s);
  }

  lemma LastAttempt(s: State)
    requires Look(s)
          == Glimpse(Some(1), Some(0), None, Some(Queued(2, {B})), {}, Watching, [], map[2 := 2 * DELAY], 3, 2 * DELAY)
    ensures var end := Next(s, LAST); end.queued.None? && end.timers == map[] && end.undelivered == []
  {
    var s1, ops := s.(timers := s.timers - {2}), [GetModified];
    assert map[2 := 2 * DELAY] - {2} == map[];
    var c := BeforeCompile(WithOptions(s1, LAST.c));
    assert ops[..0] == [] && HostSteps(c, []) == c;
    assert HostSteps(c, ops) == HostStep(c, GetModified).0 == c;
  }
}
