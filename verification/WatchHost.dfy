/** Whether compilations run with a compiler host made from their options. */
module WatchHost {
  import opened Wrappers
  import opened WatchModel
  import opened WatchProofs
  import opened WatchReads
  import opened WatchReports
  import opened WatchSettles

  /** The options that a compilation step uses. */
  function OptionsOf(s: State, step: Step): nat
    requires IsCompilation(step)
  {
    WithOptions(s, step.c).cachedOptions.value.options
  }

  /** The report of a changed configuration file, while its options are known. */
  predicate Resets(s: State, step: Step) {
    && step.Deliver? && step.i < |s.undelivered| && s.cachedOptions.Some?
    && s.undelivered[step.i].kind.Change?
    && s.normalize(s.undelivered[step.i].fileName) == s.normalize(s.cachedOptions.value.project)
  }

  /** The host is made by the first compilation that has none, and forgotten by a reset only. */
  function HostOf(s: State, step: Step): Option<nat> {
    if Resets(s, step) then None
    else if IsCompilation(step) && Compiles(s, step) && s.cachedCompilerHost.None? then Some(OptionsOf(s, step))
    else s.cachedCompilerHost
  }

  lemma HostAfter(s: State, step: Step)
    requires Enabled(s, step)
    ensures Next(s, step).cachedCompilerHost == HostOf(s, step)
  {
    if step.Start? {
      CompiledHost(s, step.c);
    } else if step.Fire? {
      CompiledHost(s.(timers := s.timers - {step.handle}), step.c);
    }
  }

  /** Step `i` compiled without a host, and no reset follows. */
  ghost predicate MadeAt(s0: State, steps: seq<Step>, i: nat)
    requires IsRun(s0, steps) && i < |steps|
  {
    && CompiledAt(s0, steps, i) && StateAt(s0, steps, i).cachedCompilerHost.None?
    && forall j :: i < j < |steps| ==> !Resets(StateAt(s0, steps, j), steps[j])
  }

  ghost function OptionsAt(s0: State, steps: seq<Step>, i: nat): nat
    requires IsRun(s0, steps) && i < |steps| && IsCompilation(steps[i])
  {
    OptionsOf(StateAt(s0, steps, i), steps[i])
  }

  lemma MadeAtExtend(s0: State, steps: seq<Step>, i: nat)
    requires IsRun(s0, steps) && i < |steps|
    ensures var init, last := steps[..|steps| - 1], steps[|steps| - 1];
            && IsRun(s0, init)
            && (MadeAt(s0, steps, i) <==>
                  if i == |init| then
                    IsCompilation(last) && Compiles(After(s0, init), last) && After(s0, init).cachedCompilerHost.None?
                  else MadeAt(s0, init, i) && !Resets(After(s0, init), last))
            && StateAt(s0, steps, i) == StateAt(s0, init, i)
  {
    hide Next, Enabled, After, Resets, Compiles;
    var init := steps[..|steps| - 1];
    StateAtInit(s0, steps, i);
    assert init[..|init|] == init;
    StateAtInit(s0, steps, |init|);
    if i < |init| {
      forall j | i <= j < |init| ensures StateAt(s0, steps, j) == StateAt(s0, init, j) && steps[j] == init[j] {
        StateAtInit(s0, steps, j);
      }
    }
  }

  /** In every run the host, if any, is the one made by a compilation since the last reset. */
  lemma {:induction false} HostIsMade(s0: State, steps: seq<Step>)
    requires IsRun(s0, steps) && s0.cachedCompilerHost.None?
    ensures After(s0, steps).cachedCompilerHost.Some? <==> exists i :: 0 <= i < |steps| && MadeAt(s0, steps, i)
    ensures forall i :: 0 <= i < |steps| && MadeAt(s0, steps, i) ==>
              After(s0, steps).cachedCompilerHost == Some(OptionsAt(s0, steps, i))
  {
    if steps != [] {
      HostIsMade(s0, steps[..|steps| - 1]);
      HostIsMadeNext(s0, steps);
    }
  }

  ghost predicate HostMade(s0: State, steps: seq<Step>)
    requires IsRun(s0, steps)
  {
    && (After(s0, steps).cachedCompilerHost.Some? <==> exists i :: 0 <= i < |steps| && MadeAt(s0, steps, i))
    && forall i :: 0 <= i < |steps| && MadeAt(s0, steps, i) ==>
         After(s0, steps).cachedCompilerHost == Some(OptionsAt(s0, steps, i))
  }

  lemma MadeEarlier(s0: State, steps: seq<Step>, i: nat)
    requires IsRun(s0, steps) && i < |steps| - 1
    ensures var init, last := steps[..|steps| - 1], steps[|steps| - 1];
            && (MadeAt(s0, steps, i) <==> MadeAt(s0, init, i) && !Resets(After(s0, init), last))
            && (IsCompilation(steps[i]) ==> OptionsAt(s0, steps, i) == OptionsAt(s0, init, i))
  {
    hide Next, Enabled, After, Resets, Compiles, MadeAt, OptionsOf, IsRun, StateAt;
    MadeAtExtend(s0, steps, i);
  }

  lemma MadeLast(s0: State, steps: seq<Step>)
    requires IsRun(s0, steps) && steps != []
    ensures var s, last := After(s0, steps[..|steps| - 1]), steps[|steps| - 1];
            && (MadeAt(s0, steps, |steps| - 1) <==>
                  IsCompilation(last) && Compiles(s, last) && s.cachedCompilerHost.None?)
            && (IsCompilation(last) ==> OptionsAt(s0, steps, |steps| - 1) == OptionsOf(s, last))
  {
    hide Next, Enabled, After, Resets, Compiles, MadeAt, OptionsOf, IsRun;
    MadeAtExtend(s0, steps, |steps| - 1);
  }

  lemma {:induction false} HostNext(s0: State, steps: seq<Step>)
    requires IsRun(s0, steps) && steps != []
    ensures After(s0, steps).cachedCompilerHost == HostOf(After(s0, steps[..|steps| - 1]), steps[|steps| - 1])
  {
    var s, last := After(s0, steps[..|steps| - 1]), steps[|steps| - 1];
    assert After(s0, steps) == Next(s, last);
    hide Next, Resets, Compiles, OptionsOf, After, IsRun;
    LastEnabled(s0, steps);
    HostAfter(s, last);
  }

  lemma LastEnabled(s0: State, steps: seq<Step>)
    requires IsRun(s0, steps) && steps != []
    ensures Enabled(After(s0, steps[..|steps| - 1]), steps[|steps| - 1])
  {
    hide Enabled;
  }

  lemma {:induction false} HostKept(s0: State, steps: seq<Step>, i: nat)
    requires IsRun(s0, steps) && i < |steps| && HostMade(s0, steps[..|steps| - 1]) && MadeAt(s0, steps, i)
    ensures IsCompilation(steps[i]) && After(s0, steps).cachedCompilerHost == Some(OptionsAt(s0, steps, i))
  {
    assert IsCompilation(steps[i]);
    HostNext(s0, steps);
    hide After, MadeAt, Resets, Compiles, IsRun, OptionsAt, OptionsOf;
    if i < |steps| - 1 {
      MadeEarlier(s0, steps, i);
    } else {
      MadeLast(s0, steps);
    }
  }

  lemma {:induction false} HostHasMaker(s0: State, steps: seq<Step>) returns (i: nat)
    requires IsRun(s0, steps) && steps != [] && HostMade(s0, steps[..|steps| - 1])
    requires After(s0, steps).cachedCompilerHost.Some?
    ensures i < |steps| && MadeAt(s0, steps, i)
  {
    HostNext(s0, steps);
    hide After, MadeAt, Resets, Compiles, IsRun, OptionsAt, OptionsOf;
    var init := steps[..|steps| - 1];
    if After(s0, init).cachedCompilerHost.Some? {
      i :| 0 <= i < |init| && MadeAt(s0, init, i);
      MadeEarlier(s0, steps, i);
    } else {
      i := |init|;
      MadeLast(s0, steps);
    }
  }

  lemma {:induction false} HostIsMadeNext(s0: State, steps: seq<Step>)
    requires IsRun(s0, steps) && steps != [] && HostMade(s0, steps[..|steps| - 1])
    ensures HostMade(s0, steps)
  {
    hide After, MadeAt, IsRun, OptionsAt;
    forall i | 0 <= i < |steps| && MadeAt(s0, steps, i)
      ensures IsCompilation(steps[i]) && After(s0, steps).cachedCompilerHost == Some(OptionsAt(s0, steps, i))
    {
      HostKept(s0, steps, i);
    }
    if After(s0, steps).cachedCompilerHost.Some? {
      var i := HostHasMaker(s0, steps);
    }
  }

  // ---------- The maker, by the history of reports ----------

  ghost predicate ResetAt(s0: State, steps: seq<Step>, k: nat)
    requires IsRun(s0, steps) && k < |steps|
  {
    Resets(StateAt(s0, steps, k), steps[k])
  }

  /** A reset lies between steps `j` and `i`. */
  ghost predicate ResetBetween(s0: State, steps: seq<Step>, j: nat, i: nat)
    requires IsRun(s0, steps) && i <= |steps|
  {
    exists k :: j < k < i && ResetAt(s0, steps, k)
  }

  /** Every compilation before step `i` is followed by a reset before it. */
  ghost predicate HostsReset(s0: State, steps: seq<Step>, i: nat)
    requires IsRun(s0, steps) && i <= |steps|
  {
    forall j :: 0 <= j < i && CompiledAt(s0, steps, j) ==> ResetBetween(s0, steps, j, i)
  }

  /** Step `i` is the first compilation since the last reset. */
  ghost predicate MadeHost(s0: State, steps: seq<Step>, i: nat)
    requires IsRun(s0, steps) && i < |steps|
  {
    CompiledAt(s0, steps, i) && HostsReset(s0, steps, i) && !ResetBetween(s0, steps, i, |steps|)
  }

  lemma HostsResetNext(s0: State, steps: seq<Step>, i: nat)
    requires IsRun(s0, steps) && i < |steps| && !(ResetAt(s0, steps, i) && CompiledAt(s0, steps, i))
    ensures HostsReset(s0, steps, i + 1)
       <==> ResetAt(s0, steps, i) || (!CompiledAt(s0, steps, i) && HostsReset(s0, steps, i))
  {
    hide ResetAt, CompiledAt, IsRun;
    if HostsReset(s0, steps, i + 1) && !ResetAt(s0, steps, i) {
      forall j | 0 <= j < i && CompiledAt(s0, steps, j) ensures ResetBetween(s0, steps, j, i) {
        assert ResetBetween(s0, steps, j, i + 1);
      }
      assert !ResetBetween(s0, steps, i, i + 1);
    }
    if ResetAt(s0, steps, i) || (!CompiledAt(s0, steps, i) && HostsReset(s0, steps, i)) {
      forall j | 0 <= j < i + 1 && CompiledAt(s0, steps, j) ensures ResetBetween(s0, steps, j, i + 1) {
        assert ResetAt(s0, steps, i) || ResetBetween(s0, steps, j, i);
      }
    }
  }

  /** There is no host exactly when every compilation so far was followed by a reset. */
  lemma {:induction false} NoHostIff(s0: State, steps: seq<Step>, i: nat)
    requires IsRun(s0, steps) && s0.cachedCompilerHost.None? && i <= |steps|
    ensures StateAt(s0, steps, i).cachedCompilerHost.None? <==> HostsReset(s0, steps, i)
  {
    hide Next, Enabled, IsRun, Resets, Compiles, HostsReset, StateAt, OptionsOf;
    if i == 0 {
      StartAt(s0, steps);
      NothingToReset(s0, steps);
    } else {
      NoHostIff(s0, steps, i - 1);
      StateAtNext(s0, steps, i - 1);
      HostAfter(StateAt(s0, steps, i - 1), steps[i - 1]);
      ResetIsReport(StateAt(s0, steps, i - 1), steps[i - 1]);
      HostsResetNext(s0, steps, i - 1);
    }
  }

  lemma StartAt(s0: State, steps: seq<Step>)
    requires IsRun(s0, steps)
    ensures StateAt(s0, steps, 0) == s0
  {
    assert steps[..0] == [];
  }

  lemma NothingToReset(s0: State, steps: seq<Step>)
    requires IsRun(s0, steps)
    ensures HostsReset(s0, steps, 0)
  {
  }

  lemma ResetIsReport(s: State, step: Step)
    ensures !(Resets(s, step) && IsCompilation(step))
  {
  }

  lemma MadeHostIff(s0: State, steps: seq<Step>, i: nat)
    requires IsRun(s0, steps) && s0.cachedCompilerHost.None? && i < |steps|
    ensures MadeHost(s0, steps, i) <==> MadeAt(s0, steps, i)
  {
    hide IsRun, CompiledAt, StateAt, HostsReset, Resets;
    NoHostIff(s0, steps, i);
    assert (forall k :: i < k < |steps| ==> !ResetAt(s0, steps, k)) <==> !ResetBetween(s0, steps, i, |steps|);
    assert forall k :: i < k < |steps| ==>
             (ResetAt(s0, steps, k) <==> Resets(StateAt(s0, steps, k), steps[k]));
  }

  /**
   * In every run a compilation has a host made from its options exactly when the first compilation
   * since the last reset, if there is one, had the same options.
   */
  lemma {:induction false} HostMatchesIff(
      normalize: Path -> Path, disk: map<Path, string>, steps: seq<Step>, step: Step)
    requires IsRun(Initial(normalize, disk), steps) && IsCompilation(step)
    requires Enabled(After(Initial(normalize, disk), steps), step)
    requires Compiles(After(Initial(normalize, disk), steps), step)
    ensures var s0 := Initial(normalize, disk);
            HostMatches(CallsFrom(After(s0, steps), step)) <==>
              forall i :: 0 <= i < |steps| && MadeHost(s0, steps, i) ==>
                OptionsAt(s0, steps, i) == OptionsOf(After(s0, steps), step)
  {
    var s0 := Initial(normalize, disk);
    HostIsMade(s0, steps);
    CallsHost(After(s0, steps), step);
    hide IsRun, After, CompiledAt, StateAt, MadeHost, MadeAt, OptionsAt, OptionsOf, Enabled, Compiles, CallsFrom;
    forall i | 0 <= i < |steps| ensures MadeHost(s0, steps, i) <==> MadeAt(s0, steps, i) {
      MadeHostIff(s0, steps, i);
    }
    if After(s0, steps).cachedCompilerHost.Some? {
      var i :| 0 <= i < |steps| && MadeAt(s0, steps, i);
    }
  }

  /** A compilation starts with the host that is there, or else one made from its options. */
  lemma CallsHost(s: State, step: Step)
    requires IsCompilation(step) && Enabled(s, step) && Compiles(s, step)
    ensures HostMatches(CallsFrom(s, step)) <==>
              s.cachedCompilerHost.None? || s.cachedCompilerHost.value == OptionsOf(s, step)
  {
  }

  // ---------- A host that outlives its options ----------

  /** `b.ts` is deleted and the configuration changed; both are reported, and 250 ms pass. */
  const REPLACE: seq<Step> := [
    EDIT[0], Ready, Mutate(map[A := "1"], [Event(CreateDelete, B), Event(Change, GOOD.project)]),
    Deliver(0), Deliver(0), Tick(DELAY)]

  const CHANGED: Step := Fire(1, Compilation(ParsedConfiguration("tsconfig.json", 7, false), [], Some(2)))

  /**
   * The report of the deletion has forgotten the options, so that the report of the changed
   * configuration does not reset the host: the next compilation has new options and the old host.
   */
  lemma HostOutlivesOptions()
    ensures IsRun(START, REPLACE) && Enabled(After(START, REPLACE), CHANGED) && Compiles(After(START, REPLACE), CHANGED)
    ensures var s := CallsFrom(After(START, REPLACE), CHANGED);
            s.cachedOptions.value.options == 7 && s.cachedCompilerHost == Some(0)
  {
    ReplaceRun();
    hide After, IsRun, Next;
  }

  lemma ReplaceStart()
    ensures IsRun(START, REPLACE[..2]) && Keeps(After(START, REPLACE[..2]))
    ensures Look(After(START, REPLACE[..2]))
         == Glimpse(Some(1), Some(0), Some(GOOD), None, {}, Watching, [], map[], 0, 0)
  {
    EditStart();
    assert REPLACE[..2] == [EDIT[0], Ready] == EDIT[..2];
  }

  lemma ReplaceRun()
    ensures IsRun(START, REPLACE) && Keeps(After(START, REPLACE))
    ensures Look(After(START, REPLACE))
         == Glimpse(Some(1), Some(0), None, Some(Queued(1, {B, GOOD.project})), {}, Watching, [], map[1 := DELAY], 2, DELAY)
  {
    ReplaceStart();
    hide Next, IsRun, After, Unnoticed;
    var b, c := Event(CreateDelete, B), Event(Change, GOOD.project);
    MutateStep(After(START, REPLACE[..2]), map[A := "1"], [b, c]);
    Onward(REPLACE, 2);
    assert [] + [b, c] == [b] + [c] == [b, c];
    ReportStep(After(START, REPLACE[..3]), b, [c]);
    Onward(REPLACE, 3);
    assert [c] == [c] + [] && {} + {B} == {B};
    ReportStep(After(START, REPLACE[..4]), c, []);
    Onward(REPLACE, 4);
    assert {B} + {GOOD.project} == {B, GOOD.project};
    TickStep(After(START, REPLACE[..5]));
    Onward(REPLACE, 5);
    assert REPLACE[..6] == REPLACE;
  }
}
