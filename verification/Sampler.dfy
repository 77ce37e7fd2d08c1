/** The sampling loop of the benchmark runner. */
module Sampler {
  import opened Wrappers

  /** What one measurement of the metric yields, and the time at which it is recorded. */
  datatype Measurement = Measurement(values: map<string, real>, invalid: bool, time: nat)

  datatype MeasureValues = MeasureValues(runIndex: nat, timeStamp: nat, values: map<string, real>)

  datatype SampleState = SampleState(completeSample: seq<MeasureValues>, validSample: Option<seq<MeasureValues>>)

  /** A call on the driver, the metric or the reporter. */
  datatype Effect =
    | Prepare
    | BeginMeasure
    | Execute
    | EndMeasure(restart: bool)
    | ReportMeasureValues(m: MeasureValues)
    | ReportSample(completeSample: seq<MeasureValues>, validSample: seq<MeasureValues>)

  type Validator = seq<MeasureValues> -> Option<seq<MeasureValues>>

  function Report(validate: Validator, state: SampleState, m: Measurement): (SampleState, seq<Effect>) {
    var measureValues := MeasureValues(|state.completeSample|, m.time, m.values);
    var completeSample := state.completeSample + [measureValues];
    var validSample := validate(completeSample);
    (SampleState(completeSample, validSample),
     [ReportMeasureValues(measureValues)]
     + if validSample.Some? then [ReportSample(completeSample, validSample.value)] else [])
  }

  /** What one iteration asks of driver and metric. */
  function Calls(prepare: bool, s: SampleState): seq<Effect> {
    (if prepare then [Prepare] else [])
    + (if prepare || s.completeSample == [] then [BeginMeasure] else [])
    + [Execute, EndMeasure(!prepare)]
  }

  function Iterate(validate: Validator, prepare: bool, lastState: SampleState, m: Measurement)
    : (SampleState, seq<Effect>)
  {
    var (newState, reports) := if m.invalid then (lastState, []) else Report(validate, lastState, m);
    (newState, Calls(prepare, lastState) + reports)
  }

  /** The loop on the given measurements, which ends early when a sample is valid. */
  function Loop(validate: Validator, prepare: bool, lastState: SampleState, ms: seq<Measurement>)
    : (SampleState, seq<Effect>)
    decreases ms
  {
    if ms == [] then (lastState, [])
    else
      var (newState, effects) := Iterate(validate, prepare, lastState, ms[0]);
      if newState.validSample.Some? then (newState, effects)
      else
        var (end, more) := Loop(validate, prepare, newState, ms[1..]);
        (end, effects + more)
  }

  function Sample(validate: Validator, prepare: bool, ms: seq<Measurement>): (SampleState, seq<Effect>) {
    Loop(validate, prepare, SampleState([], None), ms)
  }

  // ---------- What is reported ----------

  /** The accepted measurements, numbered from `first` on. */
  function Accepted(ms: seq<Measurement>, first: nat): seq<MeasureValues> {
    if ms == [] then []
    else if ms[0].invalid then Accepted(ms[1..], first)
    else [MeasureValues(first, ms[0].time, ms[0].values)] + Accepted(ms[1..], first + 1)
  }

  function MeasuresReported(log: seq<Effect>): seq<MeasureValues> {
    if log == [] then []
    else (if log[0].ReportMeasureValues? then [log[0].m] else []) + MeasuresReported(log[1..])
  }

  function SamplesReported(log: seq<Effect>): seq<Effect> {
    if log == [] then []
    else (if log[0].ReportSample? then [log[0]] else []) + SamplesReported(log[1..])
  }

  lemma Regroup<T>(a: seq<T>, b: seq<T>, c: seq<T>)
    ensures (a + b) + c == a + (b + c)
  {
  }

  lemma {:induction false} ReportedAppend(a: seq<Effect>, b: seq<Effect>)
    ensures MeasuresReported(a + b) == MeasuresReported(a) + MeasuresReported(b)
    ensures SamplesReported(a + b) == SamplesReported(a) + SamplesReported(b)
  {
    if a == [] {
      assert a + b == b;
    } else {
      assert (a + b)[1..] == a[1..] + b && (a + b)[0] == a[0];
      ReportedAppend(a[1..], b);
      Regroup(if a[0].ReportMeasureValues? then [a[0].m] else [], MeasuresReported(a[1..]), MeasuresReported(b));
      Regroup(if a[0].ReportSample? then [a[0]] else [], SamplesReported(a[1..]), SamplesReported(b));
    }
  }

  function FinalReport(s: SampleState): seq<Effect> {
    if s.validSample.Some? then [ReportSample(s.completeSample, s.validSample.value)] else []
  }

  lemma {:induction false} Silent(log: seq<Effect>)
    requires forall e :: e in log ==> !e.ReportMeasureValues? && !e.ReportSample?
    ensures MeasuresReported(log) == [] && SamplesReported(log) == []
  {
    if log != [] {
      Silent(log[1..]);
    }
  }

  lemma ReportReports(validate: Validator, s: SampleState, m: Measurement)
    requires !m.invalid
    ensures var (t, log) := Report(validate, s, m);
            && t.completeSample == s.completeSample + Accepted([m], |s.completeSample|)
            && MeasuresReported(log) == Accepted([m], |s.completeSample|)
            && SamplesReported(log) == FinalReport(t)
  {
    var (t, log) := Report(validate, s, m);
    var accepted := [MeasureValues(|s.completeSample|, m.time, m.values)];
    assert [m][1..] == [];
    assert Accepted([m], |s.completeSample|) == accepted + [];
    assert log == [ReportMeasureValues(accepted[0])] + FinalReport(t);
    ReportedAppend([ReportMeasureValues(accepted[0])], FinalReport(t));
    assert [ReportMeasureValues(accepted[0])][1..] == [];
    if t.validSample.Some? { assert FinalReport(t)[1..] == []; }
  }

  lemma CallsAreSilent(prepare: bool, s: SampleState)
    ensures MeasuresReported(Calls(prepare, s)) == [] && SamplesReported(Calls(prepare, s)) == []
  {
    Silent(Calls(prepare, s));
  }

  lemma NoneAccepted(m: Measurement, first: nat)
    requires m.invalid
    ensures Accepted([m], first) == []
  {
    assert [m][1..] == [];
  }

  lemma ReportValidates(validate: Validator, s: SampleState, m: Measurement)
    ensures var t := Report(validate, s, m).0; t.validSample == validate(t.completeSample)
  {
  }

  lemma IterateReports(validate: Validator, prepare: bool, s: SampleState, m: Measurement)
    requires s.validSample.None?
    ensures var (t, log) := Iterate(validate, prepare, s, m);
            && t.completeSample == s.completeSample + Accepted([m], |s.completeSample|)
            && MeasuresReported(log) == Accepted([m], |s.completeSample|)
            && SamplesReported(log) == FinalReport(t)
            && (if m.invalid then t == s else t.validSample == validate(t.completeSample))
  {
    CallsAreSilent(prepare, s);
    hide Calls, Report, MeasuresReported, SamplesReported, Accepted;
    var calls := Calls(prepare, s);
    if m.invalid {
      NoneAccepted(m, |s.completeSample|);
      assert calls + [] == calls;
    } else {
      var reports := Report(validate, s, m).1;
      ReportedAppend(calls, reports);
      ReportReports(validate, s, m);
      ReportValidates(validate, s, m);
    }
  }

  lemma {:induction false} AcceptedAppend(m: Measurement, ms: seq<Measurement>, first: nat)
    ensures Accepted([m] + ms, first) == Accepted([m], first) + Accepted(ms, first + |Accepted([m], first)|)
  {
    assert ([m] + ms)[1..] == ms && [m][1..] == [];
  }

  /** The reports are the measures added to the sample and, once it is valid, the sample. */
  lemma {:induction false} LoopReports(validate: Validator, prepare: bool, s: SampleState, ms: seq<Measurement>)
    requires s.validSample.None?
    ensures var (t, log) := Loop(validate, prepare, s, ms);
            t.completeSample == s.completeSample + MeasuresReported(log) && SamplesReported(log) == FinalReport(t)
    decreases ms
  {
    if ms != [] {
      var (s1, effects) := Iterate(validate, prepare, s, ms[0]);
      IterateReports(validate, prepare, s, ms[0]);
      if s1.validSample.None? {
        var (t, more) := Loop(validate, prepare, s1, ms[1..]);
        LoopReports(validate, prepare, s1, ms[1..]);
        ReportedAppend(effects, more);
      }
    }
  }

  // ---------- What is executed ----------

  /** How often the code under measurement is run. */
  function Executions(log: seq<Effect>): nat {
    if log == [] then 0 else (if log[0].Execute? then 1 else 0) + Executions(log[1..])
  }

  lemma {:induction false} ExecutionsAppend(a: seq<Effect>, b: seq<Effect>)
    ensures Executions(a + b) == Executions(a) + Executions(b)
  {
    if a == [] {
      assert a + b == b;
    } else {
      assert (a + b)[1..] == a[1..] + b;
      ExecutionsAppend(a[1..], b);
    }
  }

  lemma {:induction false} NoExecutions(log: seq<Effect>)
    requires forall e :: e in log ==> !e.Execute?
    ensures Executions(log) == 0
  {
    if log != [] {
      NoExecutions(log[1..]);
    }
  }

  lemma IterateExecutes(validate: Validator, prepare: bool, s: SampleState, m: Measurement)
    ensures Executions(Iterate(validate, prepare, s, m).1) == 1
  {
    hide Executions;
    var before := (if prepare then [Prepare] else []) + (if prepare || s.completeSample == [] then [BeginMeasure] else []);
    var after := [EndMeasure(!prepare)] + if m.invalid then [] else Report(validate, s, m).1;
    assert Iterate(validate, prepare, s, m).1 == before + ([Execute] + after);
    ExecutionsAppend(before, [Execute] + after);
    ExecutionsAppend([Execute], after);
    NoExecutions(before);
    NoExecutions(after);
    OneExecution();
  }

  lemma OneExecution()
    ensures Executions([Execute]) == 1
  {
    assert [Execute][1..] == [];
  }

  /**
   * A run stands right before every end of a measurement and nowhere else. With a preparation
   * step, the preparation and then a beginning stand right before every run and nowhere else;
   * without one there is no preparation. A measurement just ended is what is reported, and a
   * sample just extended.
   */
  predicate InPlace(log: seq<Effect>, i: nat, prepare: bool)
    requires i < |log|
  {
    match log[i]
    case Prepare => prepare && i + 1 < |log| && log[i + 1].BeginMeasure?
    case BeginMeasure => i + 1 < |log| && log[i + 1].Execute? && (prepare ==> i > 0 && log[i - 1].Prepare?)
    case Execute => i + 1 < |log| && log[i + 1].EndMeasure? && (prepare ==> i > 0 && log[i - 1].BeginMeasure?)
    case EndMeasure(restart) => i > 0 && log[i - 1].Execute? && restart == !prepare
    case ReportMeasureValues(_) => i > 0 && log[i - 1].EndMeasure?
    case ReportSample(_, _) => i > 0 && log[i - 1].ReportMeasureValues?
  }

  ghost predicate AllInPlace(log: seq<Effect>, prepare: bool) {
    forall i :: 0 <= i < |log| ==> InPlace(log, i, prepare)
  }

  lemma IterateInPlace(validate: Validator, prepare: bool, s: SampleState, m: Measurement)
    ensures AllInPlace(Iterate(validate, prepare, s, m).1, prepare)
  {
  }

  lemma InPlaceAppend(a: seq<Effect>, b: seq<Effect>, prepare: bool)
    requires AllInPlace(a, prepare) && AllInPlace(b, prepare)
    ensures AllInPlace(a + b, prepare)
  {
    forall i | 0 <= i < |a + b| ensures InPlace(a + b, i, prepare) {
      if i < |a| {
        assert InPlace(a, i, prepare);
      } else {
        assert InPlace(b, i - |a|, prepare) && (a + b)[i] == b[i - |a|];
      }
    }
  }

  lemma {:induction false} LoopInPlace(validate: Validator, prepare: bool, s: SampleState, ms: seq<Measurement>)
    ensures AllInPlace(Loop(validate, prepare, s, ms).1, prepare)
    decreases ms
  {
    if ms != [] {
      hide Iterate, AllInPlace;
      var (s1, effects) := Iterate(validate, prepare, s, ms[0]);
      IterateInPlace(validate, prepare, s, ms[0]);
      if s1.validSample.None? {
        LoopInPlace(validate, prepare, s1, ms[1..]);
        InPlaceAppend(effects, Loop(validate, prepare, s1, ms[1..]).1, prepare);
      }
    } else {
      assert AllInPlace([], prepare);
    }
  }

  /** The sample, if it is reported, is reported last. */
  lemma {:induction false} SampleReportedLast(
      validate: Validator, prepare: bool, s: SampleState, ms: seq<Measurement>, i: nat)
    requires i < |Loop(validate, prepare, s, ms).1| && Loop(validate, prepare, s, ms).1[i].ReportSample?
    ensures i == |Loop(validate, prepare, s, ms).1| - 1
    decreases ms
  {
    var (s1, effects) := Iterate(validate, prepare, s, ms[0]);
    if s1.validSample.None? && i >= |effects| {
      SampleReportedLast(validate, prepare, s1, ms[1..], i - |effects|);
    }
  }

  /**
   * Every log of a sampling run: each measurement consumed runs what is measured once, between its
   * beginning and its end, after its preparation if there is one, and the sample is reported last.
   */
  lemma EachIsExecuted(validate: Validator, prepare: bool, ms: seq<Measurement>)
    ensures var (t, log) := Sample(validate, prepare, ms);
            && AllInPlace(log, prepare)
            && Consumed(validate, SampleState([], None), ms, t, Executions(log))
            && forall i :: 0 <= i < |log| && log[i].ReportSample? ==> i == |log| - 1
  {
    var start := SampleState([], None);
    var n := LoopConsumes(validate, prepare, start, ms);
    LoopInPlace(validate, prepare, start, ms);
    forall i | 0 <= i < |Sample(validate, prepare, ms).1| && Sample(validate, prepare, ms).1[i].ReportSample?
      ensures i == |Sample(validate, prepare, ms).1| - 1
    {
      SampleReportedLast(validate, prepare, start, ms, i);
    }
  }

  /** The validator approved none of the prefixes longer than `from`, up to length `to`. */
  ghost predicate NoneApproved(validate: Validator, all: seq<MeasureValues>, from: nat, to: int) {
    forall k :: from < k <= to && k <= |all| ==> validate(all[..k]).None?
  }

  /** The first `n` measurements are consumed: all of them unless the last made the sample valid. */
  ghost predicate Consumed(validate: Validator, s: SampleState, ms: seq<Measurement>, t: SampleState, n: nat) {
    && n <= |ms|
    && t.completeSample == s.completeSample + Accepted(ms[..n], |s.completeSample|)
    && NoneApproved(validate, t.completeSample, |s.completeSample|, |t.completeSample| - 1)
    && (if t.validSample.Some? then t.validSample == validate(t.completeSample) && n > 0 && !ms[n - 1].invalid
        else n == |ms| && NoneApproved(validate, t.completeSample, |s.completeSample|, |t.completeSample|))
  }

  lemma {:induction false} LoopConsumes(validate: Validator, prepare: bool, s: SampleState, ms: seq<Measurement>)
      returns (n: nat)
    requires s.validSample.None?
    ensures Consumed(validate, s, ms, Loop(validate, prepare, s, ms).0, n)
    ensures Executions(Loop(validate, prepare, s, ms).1) == n
    decreases ms
  {
    if ms == [] {
      n := 0;
    } else {
      var (s1, effects) := Iterate(validate, prepare, s, ms[0]);
      IterateReports(validate, prepare, s, ms[0]);
      IterateExecutes(validate, prepare, s, ms[0]);
      hide Iterate, Executions;
      if s1.validSample.Some? {
        n := 1;
        assert ms[..1] == [ms[0]];
      } else {
        var k := LoopConsumes(validate, prepare, s1, ms[1..]);
        ExecutionsAppend(effects, Loop(validate, prepare, s1, ms[1..]).1);
        n := k + 1;
        ConsumedCons(validate, s, ms, s1, Loop(validate, prepare, s1, ms[1..]).0, k);
      }
    }
  }

  lemma ConsumedCons(
      validate: Validator, s: SampleState, ms: seq<Measurement>, s1: SampleState, t: SampleState, k: nat)
    requires ms != [] && Consumed(validate, s1, ms[1..], t, k)
    requires s1.completeSample == s.completeSample + Accepted([ms[0]], |s.completeSample|)
    requires if ms[0].invalid then s1 == s else validate(s1.completeSample).None?
    ensures Consumed(validate, s, ms, t, k + 1)
  {
    assert ms == [ms[0]] + ms[1..];
    assert ms[..k + 1] == [ms[0]] + ms[1..][..k];
    AcceptedAppend(ms[0], ms[1..][..k], |s.completeSample|);
    assert t.completeSample[..|s1.completeSample|] == s1.completeSample;
    assert |Accepted([ms[0]], |s.completeSample|)| <= 1 by { assert [ms[0]][1..] == []; }
  }

  /**
   * On any measurements: the measures reported are the accepted ones of those consumed, in order
   * and numbered from zero; the sample is reported once, when the validator first approves; and
   * the loop goes on until then.
   */
  lemma SampleReports(validate: Validator, prepare: bool, ms: seq<Measurement>)
    ensures var (t, log) := Sample(validate, prepare, ms);
            && MeasuresReported(log) == t.completeSample
            && SamplesReported(log) == FinalReport(t)
            && (forall i :: 0 <= i < |t.completeSample| ==> t.completeSample[i].runIndex == i)
            && exists n :: Consumed(validate, SampleState([], None), ms, t, n)
  {
    var start := SampleState([], None);
    var n := LoopConsumes(validate, prepare, start, ms);
    LoopReports(validate, prepare, start, ms);
    Numbered(ms[..n], 0);
  }

  lemma {:induction false} Numbered(ms: seq<Measurement>, first: nat)
    ensures forall i :: 0 <= i < |Accepted(ms, first)| ==> Accepted(ms, first)[i].runIndex == first + i
  {
    if ms != [] {
      Numbered(ms[1..], first);
      Numbered(ms[1..], first + 1);
    }
  }

  // ---------- Beginning and ending measurements ----------

  /** Whether a measurement is under way after the calls; `None` when one ends that never began. */
  function OpenAfter(log: seq<Effect>, open: bool): Option<bool> {
    if log == [] then Some(open)
    else match log[0]
      case BeginMeasure => OpenAfter(log[1..], true)
      case EndMeasure(restart) => if open then OpenAfter(log[1..], restart) else None
      case _ => OpenAfter(log[1..], open)
  }

  lemma {:induction false} OpenAfterAppend(a: seq<Effect>, b: seq<Effect>, open: bool)
    requires OpenAfter(a, open).Some?
    ensures OpenAfter(a + b, open) == OpenAfter(b, OpenAfter(a, open).value)
  {
    if a == [] {
      assert a + b == b;
    } else {
      assert (a + b)[1..] == a[1..] + b;
      OpenAfterAppend(a[1..], b, match a[0] case BeginMeasure => true case EndMeasure(r) => r case _ => open);
    }
  }

  lemma {:induction false} NeutralReports(log: seq<Effect>, open: bool)
    requires forall e :: e in log ==> e.ReportMeasureValues? || e.ReportSample?
    ensures OpenAfter(log, open) == Some(open)
  {
    if log != [] {
      assert log[0] in log;
      NeutralReports(log[1..], open);
    }
  }

  lemma CallsOpen(prepare: bool, s: SampleState, open: bool)
    requires prepare || s.completeSample == [] || open
    ensures OpenAfter(Calls(prepare, s), open) == Some(!prepare)
  {
    var p := if prepare then [Prepare] else [];
    var b := if prepare || s.completeSample == [] then [BeginMeasure] else [];
    var e := [Execute, EndMeasure(!prepare)];
    assert OpenAfter(p, open) == Some(open) by { if prepare { assert p[1..] == []; } }
    assert OpenAfter(b, open) == Some(true) by { if b != [] { assert b[1..] == []; } }
    assert OpenAfter(e, true) == Some(!prepare) by {
      var last := [EndMeasure(!prepare)];
      assert e[1..] == last && last[1..] == [];
      assert OpenAfter(last, true) == Some(!prepare);
    }
    OpenAfterAppend(p, b, open);
    OpenAfterAppend(p + b, e, open);
  }

  /** No measurement ends that was not begun or restarted. */
  lemma {:induction false} MeasurementsAreBegun(
      validate: Validator, prepare: bool, s: SampleState, ms: seq<Measurement>, open: bool)
    requires prepare || s.completeSample == [] || open
    ensures OpenAfter(Loop(validate, prepare, s, ms).1, open) == Some(if ms == [] then open else !prepare)
    decreases ms
  {
    if ms != [] {
      var (s1, effects) := Iterate(validate, prepare, s, ms[0]);
      var reports := if ms[0].invalid then [] else Report(validate, s, ms[0]).1;
      CallsOpen(prepare, s, open);
      OpenAfterAppend(Calls(prepare, s), reports, open);
      NeutralReports(reports, !prepare);
      if s1.validSample.None? {
        MeasurementsAreBegun(validate, prepare, s1, ms[1..], !prepare);
        OpenAfterAppend(effects, Loop(validate, prepare, s1, ms[1..]).1, open);
      }
    }
  }

  predicate NoBegin(log: seq<Effect>) {
    forall e :: e in log ==> !e.BeginMeasure?
  }

  /** No measurement is begun after a report. */
  predicate NoBeginAfterReport(log: seq<Effect>) {
    forall i, j :: 0 <= i < j < |log| && log[i].ReportMeasureValues? ==> !log[j].BeginMeasure?
  }

  lemma QuietTail(a: seq<Effect>, b: seq<Effect>)
    requires NoBegin(b) && NoBeginAfterReport(a)
    ensures NoBeginAfterReport(a + b)
  {
    forall i, j | 0 <= i < j < |a + b| && (a + b)[i].ReportMeasureValues? ensures !(a + b)[j].BeginMeasure? {
      if j < |a| { assert (a + b)[i] == a[i] && (a + b)[j] == a[j]; } else { assert (a + b)[j] in b; }
    }
  }

  lemma SilentHead(a: seq<Effect>, b: seq<Effect>)
    requires NoBeginAfterReport(b) && forall e :: e in a ==> !e.ReportMeasureValues?
    ensures NoBeginAfterReport(a + b)
  {
    forall i, j | 0 <= i < j < |a + b| && (a + b)[i].ReportMeasureValues? ensures !(a + b)[j].BeginMeasure? {
      if i >= |a| { assert (a + b)[i] == b[i - |a|] && (a + b)[j] == b[j - |a|]; }
    }
  }

  lemma {:induction false} NoBeginOnceAccepted(validate: Validator, s: SampleState, ms: seq<Measurement>)
    requires s.completeSample != []
    ensures NoBegin(Loop(validate, false, s, ms).1)
    decreases ms
  {
    if ms != [] {
      var (s1, effects) := Iterate(validate, false, s, ms[0]);
      assert NoBegin(effects);
      if s1.validSample.None? {
        NoBeginOnceAccepted(validate, s1, ms[1..]);
      }
    }
  }

  /**
   * Without a preparation step, no measurement is begun after one was accepted and reported: from
   * then on they are only restarted.
   */
  lemma {:induction false} BegunUntilAccepted(validate: Validator, s: SampleState, ms: seq<Measurement>)
    ensures NoBeginAfterReport(Loop(validate, false, s, ms).1)
    decreases ms
  {
    if ms != [] {
      var (s1, effects) := Iterate(validate, false, s, ms[0]);
      var reports := if ms[0].invalid then [] else Report(validate, s, ms[0]).1;
      assert NoBegin(reports);
      SilentHead(Calls(false, s), []);
      assert Calls(false, s) + [] == Calls(false, s);
      QuietTail(Calls(false, s), reports);
      if s1.validSample.None? {
        if ms[0].invalid {
          BegunUntilAccepted(validate, s1, ms[1..]);
          assert effects == Calls(false, s);
          SilentHead(effects, Loop(validate, false, s1, ms[1..]).1);
        } else {
          NoBeginOnceAccepted(validate, s1, ms[1..]);
          QuietTail(effects, Loop(validate, false, s1, ms[1..]).1);
        }
      }
    }
  }
}
