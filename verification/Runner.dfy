/** The benchmark phase runner: ten phases in fixed order, ended early by a failure or by
    cancellation at a phase boundary. */
module Runner {
  import opened Common

  datatype Phase =
    | EnvironmentCheck | NicBaseline | RxBaseline | TxBaseline | Bidirectional
    | PacketSizeMatrix | FlowMatrix | DurationTest | AnalysisTest | Outcome

  const PHASES := [
    EnvironmentCheck, NicBaseline, RxBaseline, TxBaseline, Bidirectional,
    PacketSizeMatrix, FlowMatrix, DurationTest, AnalysisTest, Outcome]

  datatype Severity = Information | Degraded | Fatal

  /** What the executor returns for a phase: an error, or evidence that is within bounds or not. */
  datatype Execution = Errored | Executed(valid: bool, issues: seq<Severity>)

  datatype Status = Completed | Failed | Skipped

  datatype Record = Record(
    phase: Phase, status: Status, started: Option<nat>, ended: Option<nat>, issues: seq<Severity>)

  datatype RunState = AllCompleted | CompletedDegraded | Canceled | RunFailed

  datatype Report = Report(state: RunState, records: seq<Record>)

  datatype Result<T> = Ok(value: T) | Err

  /** What the executor, the clock and the cancellation flag will say: phase i is run between the
      clock readings 2i and 2i + 1, and the flag is looked at before it and after it. */
  datatype Future = Future(execute: nat -> Execution, clock: nat -> nat, canceled: nat -> bool)

  function SkippedFrom(phases: seq<Phase>, i: nat): seq<Record>
    requires i <= |phases|
    decreases |phases| - i
  {
    if i == |phases| then [] else [Record(phases[i], Skipped, None, None, [])] + SkippedFrom(phases, i + 1)
  }

  function Ran(phases: seq<Phase>, i: nat, status: Status, f: Future, issues: seq<Severity>): Record
    requires i < |phases|
  {
    Record(phases[i], status, Some(f.clock(2 * i)), Some(f.clock(2 * i + 1)), issues)
  }

  /** The run from phase i on. */
  function RunFrom(phases: seq<Phase>, i: nat, degraded: bool, f: Future): Result<Report>
    requires i <= |phases|
    decreases |phases| - i
  {
    if i == |phases| then Ok(Report(if degraded then CompletedDegraded else AllCompleted, []))
    else if f.canceled(2 * i) then Ok(Report(Canceled, SkippedFrom(phases, i)))
    else if f.clock(2 * i + 1) < f.clock(2 * i) then Err
    else
      var e := f.execute(i);
      if e.Errored? || !e.valid then Ok(Report(RunFailed, [Ran(phases, i, Failed, f, [])] + SkippedFrom(phases, i + 1)))
      else if Fatal in e.issues then
        Ok(Report(RunFailed, [Ran(phases, i, Failed, f, e.issues)] + SkippedFrom(phases, i + 1)))
      else if f.canceled(2 * i + 1) then
        Ok(Report(Canceled, [Ran(phases, i, Completed, f, e.issues)] + SkippedFrom(phases, i + 1)))
      else
        var later := RunFrom(phases, i + 1, degraded || Degraded in e.issues, f);
        if later.Err? then Err
        else Ok(Report(later.value.state, [Ran(phases, i, Completed, f, e.issues)] + later.value.records))
  }

  class BenchmarkRunner {
    var consumed: bool
    /** The phases handed to the executor. */
    var executed: seq<Phase>

    constructor ()
      ensures !consumed && executed == []
    {
      consumed, executed := false, [];
    }

    /** `run`: the report of the run, and no phase is ever executed twice. */
    method Run(f: Future) returns (r: Result<Report>)
      modifies this
      ensures consumed
      ensures old(consumed) ==> r == Err && executed == old(executed)
      ensures !old(consumed) ==> r == RunFrom(PHASES, 0, false, f)
      ensures !old(consumed) ==> exists n :: 0 <= n <= 10 && executed == old(executed) + PHASES[..n]
      ensures !old(consumed) && r.Ok? ==> executed == old(executed) + Performed(r.value.records)
    {
      if consumed {
        return Err;
      }
      consumed := true;
      ghost var n;
      r, n := RunPhases(PHASES, f);
    }

    method RunPhases(phases: seq<Phase>, f: Future) returns (r: Result<Report>, ghost n: nat)
      modifies this`executed
      ensures r == RunFrom(phases, 0, false, f)
      ensures n <= |phases| && executed == old(executed) + phases[..n]
      ensures r.Ok? ==> Performed(r.value.records) == phases[..n]
    {
      var records, degraded := [], false;
      n := 0;
      FromStart(RunFrom(phases, 0, false, f));
      assert phases[..0] == [] && executed + [] == executed;
      for index := 0 to |phases|
        invariant n == index && executed == old(executed) + phases[..n] && Performed(records) == phases[..n]
        invariant RunFrom(phases, 0, false, f) == After(records, RunFrom(phases, index, degraded, f))
      {
        RunStep(phases, records, index, degraded, f);
        if f.canceled(2 * index) {
          var skipped := AppendSkipped(phases, records, index);
          return Ok(Report(Canceled, skipped)), n;
        }
        var started, execution := f.clock(2 * index), f.execute(index);
        OneMore(old(executed), phases, index);
        executed, n := executed + [phases[index]], n + 1;
        var ended := f.clock(2 * index + 1);
        if ended < started {
          return Err, n;
        }
        var failed := execution.Errored? || !execution.valid || Fatal in execution.issues;
        var issues := if execution.Errored? || !execution.valid then [] else execution.issues;
        var record := Record(phases[index], if failed then Failed else Completed, Some(started), Some(ended), issues);
        PerformedOneMore(phases, index, records, record);
        records := records + [record];
        if failed || f.canceled(2 * index + 1) {
          records := AppendSkipped(phases, records, index + 1);
          return Ok(Report(if failed then RunFailed else Canceled, records)), n;
        }
        degraded := degraded || Degraded in execution.issues;
      }
      assert records + [] == records;
      return Ok(Report(if degraded then CompletedDegraded else AllCompleted, records)), n;
    }
  }

  lemma FromStart(r: Result<Report>)
    ensures After([], r) == r
  {
    assert r.Ok? ==> [] + r.value.records == r.value.records;
  }

  method AppendSkipped(phases: seq<Phase>, records: seq<Record>, from: nat) returns (all: seq<Record>)
    requires from <= |phases|
    ensures all == records + SkippedFrom(phases, from) && Performed(all) == Performed(records)
  {
    PerformedConcat(records, SkippedFrom(phases, from));
    NoneSkipped(phases, from);
    all := records;
    assert all + SkippedFrom(phases, from) == records + SkippedFrom(phases, from);
    for i := from to |phases|
      invariant all + SkippedFrom(phases, i) == records + SkippedFrom(phases, from)
    {
      var skipped := Record(phases[i], Skipped, None, None, []);
      assert (all + [skipped]) + SkippedFrom(phases, i + 1) == all + ([skipped] + SkippedFrom(phases, i + 1));
      all := all + [skipped];
    }
    assert all + SkippedFrom(phases, |phases|) == all;
  }

  /** The phases that were not skipped. */
  function Performed(records: seq<Record>): seq<Phase> {
    if records == [] then []
    else (if records[0].status == Skipped then [] else [records[0].phase]) + Performed(records[1..])
  }

  lemma {:induction false} PerformedConcat(a: seq<Record>, b: seq<Record>)
    ensures Performed(a + b) == Performed(a) + Performed(b)
  {
    if a == [] {
      assert a + b == b;
    } else {
      assert (a + b)[0] == a[0] && (a + b)[1..] == a[1..] + b;
      PerformedConcat(a[1..], b);
    }
  }

  lemma OneMore<T>(before: seq<T>, phases: seq<T>, i: nat)
    requires i < |phases|
    ensures (before + phases[..i]) + [phases[i]] == before + phases[..i + 1]
  {}

  lemma PerformedOneMore(phases: seq<Phase>, i: nat, records: seq<Record>, record: Record)
    requires i < |phases| && Performed(records) == phases[..i] && record.phase == phases[i] && record.status != Skipped
    ensures Performed(records + [record]) == phases[..i + 1]
  {
    PerformedConcat(records, [record]);
    assert [record][1..] == [] && Performed([record]) == [record.phase] + Performed([]);
  }

  lemma {:induction false} NoneSkipped(phases: seq<Phase>, i: nat)
    requires i <= |phases|
    ensures Performed(SkippedFrom(phases, i)) == []
    decreases |phases| - i
  {
    if i < |phases| {
      NoneSkipped(phases, i + 1);
    }
  }

  /** Records already pushed, then those of the rest of the run. */
  ghost function After(records: seq<Record>, rest: Result<Report>): Result<Report> {
    if rest.Err? then Err else Ok(Report(rest.value.state, records + rest.value.records))
  }

  lemma RunStep(phases: seq<Phase>, records: seq<Record>, i: nat, degraded: bool, f: Future)
    requires i < |phases|
    ensures var e := f.execute(i);
            var r := After(records, RunFrom(phases, i, degraded, f));
            if f.canceled(2 * i) then r == Ok(Report(Canceled, records + SkippedFrom(phases, i)))
            else if f.clock(2 * i + 1) < f.clock(2 * i) then r == Err
            else if e.Errored? || !e.valid then
              r == Ok(Report(RunFailed, records + [Ran(phases, i, Failed, f, [])] + SkippedFrom(phases, i + 1)))
            else
              var failed, completed := Ran(phases, i, Failed, f, e.issues), Ran(phases, i, Completed, f, e.issues);
              if Fatal in e.issues then r == Ok(Report(RunFailed, records + [failed] + SkippedFrom(phases, i + 1)))
              else if f.canceled(2 * i + 1) then
                r == Ok(Report(Canceled, records + [completed] + SkippedFrom(phases, i + 1)))
              else r == After(records + [completed], RunFrom(phases, i + 1, degraded || Degraded in e.issues, f))
  {
    var e := f.execute(i);
    if e.Executed? {
      Group(records, Ran(phases, i, Completed, f, e.issues), SkippedFrom(phases, i + 1));
      Group(records, Ran(phases, i, Failed, f, e.issues), SkippedFrom(phases, i + 1));
      var later := RunFrom(phases, i + 1, degraded || Degraded in e.issues, f);
      if later.Ok? {
        Group(records, Ran(phases, i, Completed, f, e.issues), later.value.records);
      }
    }
    Group(records, Ran(phases, i, Failed, f, []), SkippedFrom(phases, i + 1));
  }

  lemma Group<T>(a: seq<T>, x: T, b: seq<T>)
    ensures a + ([x] + b) == a + [x] + b
  {}

  // ---- What every report looks like ----

  /** Completed phases, then at most one failed one, then skipped ones, the phases in order. */
  ghost predicate Shaped(phases: seq<Phase>, records: seq<Record>, i: nat)
    requires i <= |phases|
  {
    && |records| == |phases| - i
    && (forall k :: 0 <= k < |records| ==> records[k].phase == phases[i + k])
    && (forall k :: 0 <= k < |records| - 1 ==> records[k].status != Completed ==> records[k + 1].status == Skipped)
  }

  ghost predicate HasFailed(records: seq<Record>) {
    exists k :: 0 <= k < |records| && records[k].status == Failed
  }

  ghost predicate AllDone(records: seq<Record>) {
    forall k :: 0 <= k < |records| ==> records[k].status == Completed
  }

  ghost predicate HasDegraded(records: seq<Record>) {
    exists k :: 0 <= k < |records| && Degraded in records[k].issues
  }

  lemma {:induction false} SkippedShape(phases: seq<Phase>, i: nat)
    requires i <= |phases|
    ensures Shaped(phases, SkippedFrom(phases, i), i) && !HasFailed(SkippedFrom(phases, i))
    ensures !HasDegraded(SkippedFrom(phases, i))
    ensures i < |phases| ==> SkippedFrom(phases, i)[0].status == Skipped
    decreases |phases| - i
  {
    if i < |phases| {
      SkippedShape(phases, i + 1);
      Prepend(phases, Record(phases[i], Skipped, None, None, []), SkippedFrom(phases, i + 1), i);
    }
  }

  /** Putting a record in front. */
  lemma Prepend(phases: seq<Phase>, first: Record, rest: seq<Record>, i: nat)
    requires i < |phases| && Shaped(phases, rest, i + 1) && first.phase == phases[i]
    requires first.status != Completed && rest != [] ==> rest[0].status == Skipped
    ensures Shaped(phases, [first] + rest, i)
    ensures HasFailed([first] + rest) <==> first.status == Failed || HasFailed(rest)
    ensures HasDegraded([first] + rest) <==> Degraded in first.issues || HasDegraded(rest)
    ensures AllDone([first] + rest) <==> first.status == Completed && AllDone(rest)
  {
    var all := [first] + rest;
    assert forall k :: 0 < k < |all| ==> all[k] == rest[k - 1];
    assert all[0] == first;
    assert forall k :: 0 <= k < |rest| ==> rest[k] == all[k + 1];
  }

  ghost predicate Agrees(report: Report, degraded: bool) {
    && (report.state == RunFailed <==> HasFailed(report.records))
    && (report.state in {AllCompleted, CompletedDegraded} ==> AllDone(report.records))
    && (report.state == AllCompleted ==> !degraded && !HasDegraded(report.records))
    && (report.state == CompletedDegraded ==> degraded || HasDegraded(report.records))
  }

  lemma {:induction false} ReportFrom(phases: seq<Phase>, i: nat, degraded: bool, f: Future)
    requires i <= |phases| && RunFrom(phases, i, degraded, f).Ok?
    ensures var r := RunFrom(phases, i, degraded, f).value; Shaped(phases, r.records, i) && Agrees(r, degraded)
    decreases |phases| - i
  {
    if i < |phases| && f.canceled(2 * i) {
      SkippedShape(phases, i);
    } else if i < |phases| {
      var e := f.execute(i);
      SkippedShape(phases, i + 1);
      if e.Errored? || !e.valid {
        Prepend(phases, Ran(phases, i, Failed, f, []), SkippedFrom(phases, i + 1), i);
      } else if Fatal in e.issues {
        Prepend(phases, Ran(phases, i, Failed, f, e.issues), SkippedFrom(phases, i + 1), i);
      } else if f.canceled(2 * i + 1) {
        Prepend(phases, Ran(phases, i, Completed, f, e.issues), SkippedFrom(phases, i + 1), i);
      } else {
        ReportFrom(phases, i + 1, degraded || Degraded in e.issues, f);
        Prepend(phases, Ran(phases, i, Completed, f, e.issues),
            RunFrom(phases, i + 1, degraded || Degraded in e.issues, f).value.records, i);
      }
    }
  }

  // ---- Cancellation ----

  /** The phase ends well. */
  ghost predicate Passes(j: nat, f: Future) {
    var e := f.execute(j);
    e.Executed? && e.valid && Fatal !in e.issues && f.clock(2 * j) <= f.clock(2 * j + 1)
  }

  /** The flag is first seen set at boundary b, which is before phase b / 2 or, for odd b, after it, and
      all phases up to there end well. */
  ghost predicate CanceledAt(phases: seq<Phase>, i: nat, f: Future, b: nat) {
    && 2 * i <= b < 2 * |phases| && f.canceled(b)
    && (forall c :: 2 * i <= c < b ==> !f.canceled(c))
    && (forall j :: i <= j <= |phases| && 2 * j + 1 <= b ==> Passes(j, f))
  }

  ghost predicate SeenCanceled(phases: seq<Phase>, i: nat, f: Future) {
    exists b :: CanceledAt(phases, i, f, b)
  }

  lemma {:induction false} CanceledFromIff(phases: seq<Phase>, i: nat, degraded: bool, f: Future)
    requires i <= |phases| && RunFrom(phases, i, degraded, f).Ok?
    ensures RunFrom(phases, i, degraded, f).value.state == Canceled <==> SeenCanceled(phases, i, f)
    decreases |phases| - i
  {
    if i < |phases| && f.canceled(2 * i) {
      assert CanceledAt(phases, i, f, 2 * i);
    } else if i < |phases| && Passes(i, f) {
      if f.canceled(2 * i + 1) {
        assert CanceledAt(phases, i, f, 2 * i + 1);
      } else {
        CanceledFromIff(phases, i + 1, degraded || Degraded in f.execute(i).issues, f);
        CanceledLater(phases, i, i + 1, f);
      }
    }
  }

  lemma CanceledLater(phases: seq<Phase>, i: nat, next: nat, f: Future)
    requires i < |phases| && next == i + 1 && !f.canceled(2 * i) && !f.canceled(2 * i + 1) && Passes(i, f)
    ensures SeenCanceled(phases, i, f) <==> SeenCanceled(phases, next, f)
  {
    if b :| CanceledAt(phases, i, f, b) {
      assert CanceledAt(phases, next, f, b);
    }
    if b :| CanceledAt(phases, next, f, b) {
      assert CanceledAt(phases, i, f, b);
    }
  }

  /** A report says canceled exactly when the flag is seen before or after some phase, with every phase up
      to there ended well. */
  lemma CanceledIff(f: Future)
    requires RunFrom(PHASES, 0, false, f).Ok?
    ensures RunFrom(PHASES, 0, false, f).value.state == Canceled <==> SeenCanceled(PHASES, 0, f)
  {
    CanceledFromIff(PHASES, 0, false, f);
  }

  /** Every report lists the ten phases in order, as completed ones, at most one failed, then skipped;
      its state says failed exactly when a record does, and completed only when all are and none had
      a degraded issue. */
  lemma ReportIsRight(f: Future)
    requires RunFrom(PHASES, 0, false, f).Ok?
    ensures var r := RunFrom(PHASES, 0, false, f).value; Shaped(PHASES, r.records, 0) && Agrees(r, false)
    ensures var rs := RunFrom(PHASES, 0, false, f).value.records;
            forall j, k :: 0 <= j < k < |rs| ==> !(rs[j].status == Failed && rs[k].status == Failed)
  {
    ReportFrom(PHASES, 0, false, f);
    var rs := RunFrom(PHASES, 0, false, f).value.records;
    forall j, k | 0 <= j < k < |rs| ensures !(rs[j].status == Failed && rs[k].status == Failed) {
      SkippedAfter(PHASES, rs, j, k);
    }
  }

  lemma {:induction false} SkippedAfter(phases: seq<Phase>, rs: seq<Record>, j: nat, k: nat)
    requires j < k < |rs| && Shaped(phases, rs, 0)
    ensures rs[j].status != Completed ==> rs[k].status == Skipped
    decreases k
  {
    if j < k - 1 {
      SkippedAfter(phases, rs, j, k - 1);
    }
    assert rs[k - 1].status != Completed ==> rs[k - 1 + 1].status == Skipped;
  }
}
