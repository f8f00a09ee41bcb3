/** What Safe Apply guarantees over whole runs: any sequence of requests, watchdog passes, restarts and
    outside changes, with faults and process deaths anywhere. */
module SafeApplyRuns {
  import opened Common
  import opened SafeApply

  /** A stopped manager has no memory; `Open` will read the file, which nobody else writes. */
  datatype World = Running(s: State) | Stopped(s: State)

  datatype Step =
    | Open(readable: bool)
    | Stop
    | BeginStep(request: Request, beginFaults: BeginFaults)
    | ConfirmStep(operationId: string, now: nat, confirmFaults: ConfirmFaults)
    | RollbackStep(operationId: string, rollbackFaults: RollbackFaults)
    | RecoverStep(now: nat, recoverFaults: seq<RollbackFaults>)
    | Outside(interface: string, content: NetState)

  function Halt(s: State): World {
    Stopped(s.(pending := s.file))
  }

  function Settle<T>(o: Outcome<T>): World {
    if o.result.Died? then Halt(o.state) else Running(o.state)
  }

  function Next(w: World, step: Step): World {
    match (w, step)
    case (Running(s), Stop) => Halt(s)
    case (Running(s), BeginStep(request, faults)) => Settle(Begin(s, request, faults))
    case (Running(s), ConfirmStep(id, now, faults)) => Settle(Confirm(s, id, now, faults))
    case (Running(s), RollbackStep(id, faults)) => Settle(RollbackInternal(s, id, faults))
    case (Running(s), RecoverStep(now, faults)) => Settle(RecoverExpired(s, now, faults))
    case (Stopped(s), Open(readable)) => if readable then Running(s.(pending := s.file)) else w
    case (_, Outside(interface, content)) => w.(s := w.s.(net := w.s.net[interface := content]))
    case _ => w
  }

  function Run(w: World, steps: seq<Step>): World
    decreases |steps|
  {
    if steps == [] then w else Run(Next(w, steps[0]), steps[1..])
  }

  /** A machine on which Safe Apply was never used. */
  function Fresh(net: map<string, NetState>): World {
    Stopped(State([], [], net, [], []))
  }

  // ---- Invariant ----

  /** The record names a stored snapshot of its own interface. */
  ghost predicate Names(r: Record, snapshots: seq<Snapshot>) {
    && r.snapshotId < |snapshots|
    && snapshots[r.snapshotId].interface == r.targetInterface
    && r.oldStateHash == Sha256(snapshots[r.snapshotId].content)
  }

  ghost predicate UniqueIds(rs: seq<Record>) {
    forall i, j :: 0 <= i < j < |rs| ==> rs[i].operationId != rs[j].operationId
  }

  ghost predicate OnePerInterface(rs: seq<Record>) {
    forall i, j :: 0 <= i < j < |rs| && rs[i].Active() && rs[j].Active()
      ==> rs[i].targetInterface != rs[j].targetInterface
  }

  ghost predicate OwnSnapshots(rs: seq<Record>, snapshots: seq<Snapshot>) {
    && (forall i :: 0 <= i < |rs| ==> Names(rs[i], snapshots))
    && (forall i, j :: 0 <= i < j < |rs| ==> rs[i].snapshotId < rs[j].snapshotId)
  }

  ghost predicate Consistent(rs: seq<Record>, snapshots: seq<Snapshot>) {
    UniqueIds(rs) && OnePerInterface(rs) && OwnSnapshots(rs, snapshots)
  }

  /** Two versions of one operation's record; a finished version is never replaced. */
  ghost predicate Follows(older: Record, newer: Record) {
    newer == if older.Active() then older.(state := newer.state) else older
  }

  ghost predicate Extends(older: seq<Record>, newer: seq<Record>) {
    |older| <= |newer| && forall i :: 0 <= i < |older| ==> Follows(older[i], newer[i])
  }

  /** The file holds the record of the operation behind an `Apply`, naming a snapshot of what the
      interface carried just before. */
  ghost predicate Recorded(call: Call, r: Record, snapshots: seq<Snapshot>)
    requires call.Apply?
  {
    && r.operationId == call.operationId
    && r.targetInterface == call.target
    && r.snapshotId < |snapshots|
    && snapshots[r.snapshotId] == Snapshot(call.target, call.before)
  }

  ghost predicate WrittenAhead(call: Call, file: seq<Record>, snapshots: seq<Snapshot>)
    requires call.Apply?
  {
    exists i :: 0 <= i < |file| && Recorded(call, file[i], snapshots)
  }

  ghost predicate AppliedOnce(calls: seq<Call>) {
    forall k, l :: 0 <= k < l < |calls| && calls[k].Apply? && calls[l].Apply?
      ==> calls[k].operationId != calls[l].operationId
  }

  ghost predicate Inv(s: State) {
    && Consistent(s.pending, s.snapshots)
    && Consistent(s.file, s.snapshots)
    && Extends(s.file, s.pending)
    && AppliedOnce(s.calls)
    && (forall k :: 0 <= k < |s.calls| && s.calls[k].Apply? ==> WrittenAhead(s.calls[k], s.file, s.snapshots))
  }

  /** An operation that awaits confirmation is in force on its interface. */
  ghost predicate InForce(rs: seq<Record>, net: map<string, NetState>) {
    forall i :: 0 <= i < |rs| && rs[i].state.PendingConfirmation?
      ==> rs[i].targetInterface in net && rs[i].newStateHash == Sha256(net[rs[i].targetInterface])
  }

  ghost predicate Carrying(s: State) {
    InForce(s.pending, s.net) && InForce(s.file, s.net)
  }

  // ---- Progress between two states of a run ----

  /** No snapshot of a finished record of `file` is restored by the calls from position n on. */
  ghost predicate Spares(file: seq<Record>, calls: seq<Call>, n: nat) {
    forall k, i :: n <= k < |calls| && 0 <= i < |file| && calls[k] == Restore(file[i].snapshotId)
      ==> file[i].Active()
  }

  ghost predicate Later(s: State, t: State) {
    && Extends(s.file, t.file)
    && s.snapshots <= t.snapshots
    && s.calls <= t.calls
    && Spares(s.file, t.calls, |s.calls|)
  }

  /** What every piece of an operation does. */
  ghost predicate Keeps(s: State, t: State) {
    && Inv(t)
    && Later(s, t)
    && Extends(s.pending, t.pending)
    && (Carrying(s) ==> Carrying(t))
  }

  lemma ExtendsTransitive(a: seq<Record>, b: seq<Record>, c: seq<Record>)
    requires Extends(a, b) && Extends(b, c)
    ensures Extends(a, c)
  {
    forall i | 0 <= i < |a| ensures Follows(a[i], c[i]) {
      assert Follows(a[i], b[i]) && Follows(b[i], c[i]);
    }
  }

  lemma LaterTransitive(s: State, t: State, u: State)
    requires Later(s, t) && Later(t, u)
    ensures Later(s, u)
  {
    forall k, i | |s.calls| <= k < |u.calls| && 0 <= i < |s.file| && u.calls[k] == Restore(s.file[i].snapshotId)
      ensures s.file[i].Active()
    {
      assert Follows(s.file[i], t.file[i]);
      if k < |t.calls| {
        assert t.calls[k] == u.calls[k];
      } else {
        assert t.file[i].snapshotId == s.file[i].snapshotId;
      }
    }
    ExtendsTransitive(s.file, t.file, u.file);
  }

  lemma KeepsTransitive(s: State, t: State, u: State)
    requires Keeps(s, t) && Keeps(t, u)
    ensures Keeps(s, u)
  {
    LaterTransitive(s, t, u);
    ExtendsTransitive(s.pending, t.pending, u.pending);
  }

  // ---- Pieces ----

  lemma FindUnique(rs: seq<Record>, i: nat)
    requires UniqueIds(rs) && i < |rs|
    ensures Find(rs, rs[i].operationId) == i
    ensures FindActive(rs, rs[i].operationId) == if rs[i].Active() then i else |rs|
  {}

  lemma WrittenAheadLater(call: Call, s: State, t: State)
    requires call.Apply? && WrittenAhead(call, s.file, s.snapshots)
    requires Extends(s.file, t.file) && s.snapshots <= t.snapshots
    ensures WrittenAhead(call, t.file, t.snapshots)
  {
    var i :| 0 <= i < |s.file| && Recorded(call, s.file[i], s.snapshots);
    assert Follows(s.file[i], t.file[i]);
    assert Recorded(call, t.file[i], t.snapshots);
  }

  lemma PersistKeeps(s: State, write: Write)
    requires Inv(s)
    ensures Keeps(s, Persist(s, write).state)
  {
    var t := Persist(s, write).state;
    forall k | 0 <= k < |s.calls| && s.calls[k].Apply?
      ensures WrittenAhead(s.calls[k], t.file, t.snapshots)
    {
      WrittenAheadLater(s.calls[k], s, t);
    }
  }

  /** Moving one active record on, in memory only. */
  lemma UpdateKeeps(s: State, i: nat, state: ApplyState)
    requires Inv(s) && i < |s.pending| && s.pending[i].Active()
    requires state.PendingConfirmation? ==>
      s.pending[i].targetInterface in s.net && s.pending[i].newStateHash == Sha256(s.net[s.pending[i].targetInterface])
    ensures Keeps(s, s.(pending := s.pending[i := s.pending[i].(state := state)]))
  {
    var t := s.(pending := s.pending[i := s.pending[i].(state := state)]);
    forall j | 0 <= j < |s.file| ensures Follows(s.file[j], t.pending[j]) {
      assert Follows(s.file[j], s.pending[j]);
    }
  }

  lemma ReplaceKeeps(s: State, i: nat, state: ApplyState, write: Write)
    requires Inv(s) && i < |s.pending| && s.pending[i].Active()
    requires state.PendingConfirmation? ==>
      s.pending[i].targetInterface in s.net && s.pending[i].newStateHash == Sha256(s.net[s.pending[i].targetInterface])
    ensures var o := ReplaceRecord(s, s.pending[i].(state := state), write);
            && o == Persist(s.(pending := s.pending[i := s.pending[i].(state := state)]), write)
            && Keeps(s, o.state)
  {
    FindUnique(s.pending, i);
    var t := s.(pending := s.pending[i := s.pending[i].(state := state)]);
    UpdateKeeps(s, i, state);
    PersistKeeps(t, write);
    KeepsTransitive(s, t, Persist(t, write).state);
  }

  /** Calls other than `Apply` leave the invariant alone, whatever they do to the interfaces. */
  lemma CallKeepsInv(s: State, call: Call, net: map<string, NetState>)
    requires Inv(s) && !call.Apply?
    ensures Inv(s.(net := net, calls := s.calls + [call]))
  {
    var t := s.(net := net, calls := s.calls + [call]);
    forall k | 0 <= k < |t.calls| && t.calls[k].Apply?
      ensures WrittenAhead(t.calls[k], t.file, t.snapshots)
    {
      assert t.calls[k] == s.calls[k];
    }
  }

  lemma QuietCallKeeps(s: State, call: Call)
    requires Inv(s) && (call.Verify? || call.TakeSnapshot?)
    ensures Keeps(s, s.(calls := s.calls + [call]))
  {
    CallKeepsInv(s, call, s.net);
  }

  /** Restoring an active record spares every finished one: snapshots are not shared. */
  lemma RestoreSpares(rs: seq<Record>, snapshots: seq<Snapshot>, i: nat, calls: seq<Call>)
    requires OwnSnapshots(rs, snapshots) && i < |rs| && rs[i].Active()
    ensures Spares(rs, calls + [Restore(rs[i].snapshotId)], |calls|)
  {
    assert forall j :: 0 <= j < |rs| && rs[j].snapshotId == rs[i].snapshotId ==> j == i;
  }

  /** Changing an interface whose only active record is not awaiting confirmation. */
  lemma ChangeKeepsInForce(rs: seq<Record>, i: nat, net: map<string, NetState>, content: NetState)
    requires OnePerInterface(rs) && i < |rs| && rs[i].Active() && !rs[i].state.PendingConfirmation?
    requires InForce(rs, net)
    ensures InForce(rs, net[rs[i].targetInterface := content])
  {
    forall j | 0 <= j < |rs| && rs[j].state.PendingConfirmation?
      ensures rs[j].targetInterface != rs[i].targetInterface
    {
      if j < i { assert rs[j].Active() && rs[i].Active(); }
      else { assert i < j && rs[j].Active(); }
    }
  }

  lemma RestoreKeeps(s: State, i: nat, fault: ChangeFault)
    requires Inv(s) && s.file == s.pending && i < |s.pending| && s.pending[i].state.RollingBack?
    ensures Keeps(s, RestoreCall(s, s.pending[i].snapshotId, fault).state)
  {
    var r := s.pending[i];
    assert Names(r, s.snapshots);
    var content := if fault.verdict.Succeeds? then s.snapshots[r.snapshotId].content else fault.after;
    var net := s.net[r.targetInterface := content];
    CallKeepsInv(s, Restore(r.snapshotId), net);
    RestoreSpares(s.file, s.snapshots, i, s.calls);
    if Carrying(s) {
      ChangeKeepsInForce(s.pending, i, s.net, content);
    }
    assert RestoreCall(s, r.snapshotId, fault).state == s.(net := net, calls := s.calls + [Restore(r.snapshotId)]);
  }

  // ---- Operations ----

  lemma RestoreRecordKeeps(s: State, i: nat, record: Record, faults: RollbackFaults)
    requires Inv(s) && s.file == s.pending && i < |s.pending|
    requires s.pending[i] == record.(state := RollingBack)
    ensures Keeps(s, RestoreRecord(s, record, faults).state)
  {
    RestoreKeeps(s, i, faults.restore);
    var o1 := RestoreCall(s, record.snapshotId, faults.restore);
    assert o1.state.pending == s.pending;
    if !o1.result.Died? {
      var final := if o1.result.Ok? then RolledBack else Failed;
      var o2 := ReplaceRecord(o1.state, record.(state := final), faults.final);
      assert RestoreRecord(s, record, faults).state == o2.state;
      assert Keeps(o1.state, o2.state) by {
        ReplaceKeeps(o1.state, i, final, faults.final);
      }
      KeepsTransitive(s, o1.state, o2.state);
    }
  }

  lemma RollbackKeeps(s: State, operationId: string, faults: RollbackFaults)
    requires Inv(s)
    ensures Keeps(s, RollbackInternal(s, operationId, faults).state)
  {
    var i := FindActive(s.pending, operationId);
    if i < |s.pending| {
      var r := s.pending[i];
      ReplaceKeeps(s, i, RollingBack, faults.rolling);
      var o1 := ReplaceRecord(s, r.(state := RollingBack), faults.rolling);
      if o1.result.Ok? {
        RestoreRecordKeeps(o1.state, i, r, faults);
        KeepsTransitive(s, o1.state, RestoreRecord(o1.state, r, faults).state);
      }
    }
  }

  lemma ConfirmKeeps(s: State, operationId: string, now: nat, faults: ConfirmFaults)
    requires Inv(s)
    ensures Keeps(s, Confirm(s, operationId, now, faults).state)
  {
    var i := FindActive(s.pending, operationId);
    if i < |s.pending| {
      ReplaceKeeps(s, i, Confirmed, faults.write);
    }
  }

  // ---- Begin ----

  /** What the checks and the snapshot of `begin` establish about the new record. */
  ghost predicate Admissible(s: State, r: Record) {
    && r.state.Prepared?
    && Names(r, s.snapshots)
    && (forall i :: 0 <= i < |s.pending| ==>
          s.pending[i].operationId != r.operationId && s.pending[i].snapshotId < r.snapshotId)
    && !InterfaceBusy(s.pending, r.targetInterface)
  }

  lemma AppendKeeps(s: State, r: Record)
    requires Inv(s) && Admissible(s, r)
    ensures Keeps(s, s.(pending := s.pending + [r]))
  {}

  lemma NotYetApplied(s: State, operationId: string)
    requires Inv(s) && forall i :: 0 <= i < |s.pending| ==> s.pending[i].operationId != operationId
    ensures forall k :: 0 <= k < |s.calls| && s.calls[k].Apply? ==> s.calls[k].operationId != operationId
  {
    forall k | 0 <= k < |s.calls| && s.calls[k].Apply?
      ensures s.calls[k].operationId != operationId
    {
      assert WrittenAhead(s.calls[k], s.file, s.snapshots);
      var i :| 0 <= i < |s.file| && Recorded(s.calls[k], s.file[i], s.snapshots);
      assert Follows(s.file[i], s.pending[i]);
    }
  }

  lemma ApplyKeeps(s: State, i: nat, fault: ChangeFault)
    requires Inv(s) && s.file == s.pending && i < |s.file| && s.file[i].state.Prepared?
    requires s.file[i].targetInterface in s.net
    requires s.snapshots[s.file[i].snapshotId].content == s.net[s.file[i].targetInterface]
    requires forall k :: 0 <= k < |s.calls| && s.calls[k].Apply? ==> s.calls[k].operationId != s.file[i].operationId
    ensures Keeps(s, ApplyCall(s, s.file[i].operationId, s.file[i].targetInterface, fault).state)
  {
    var r := s.file[i];
    var t := ApplyCall(s, r.operationId, r.targetInterface, fault).state;
    forall k | 0 <= k < |t.calls| && t.calls[k].Apply?
      ensures WrittenAhead(t.calls[k], t.file, t.snapshots)
    {
      if k < |s.calls| {
        assert t.calls[k] == s.calls[k];
      } else {
        assert Names(r, s.snapshots);
        assert Recorded(t.calls[k], t.file[i], t.snapshots);
      }
    }
    if Carrying(s) {
      ChangeKeepsInForce(s.pending, i, s.net, fault.after);
    }
  }

  /** From a prepared record on file to the end of `begin`. */
  lemma ApplyRecordedKeeps(s: State, request: Request, record: Record, faults: BeginFaults)
    requires Inv(s) && s.file == s.pending && |s.pending| > 0 && s.pending[|s.pending| - 1] == record
    requires record.state.Prepared?
    requires record.operationId == request.operationId && record.targetInterface == request.interfaceId
    requires record.newStateHash == Sha256(request.desired)
    requires request.interfaceId in s.net
    requires s.snapshots[record.snapshotId].content == s.net[request.interfaceId]
    requires forall k :: 0 <= k < |s.calls| && s.calls[k].Apply? ==> s.calls[k].operationId != record.operationId
    ensures Keeps(s, ApplyRecorded(s, request, record, faults).state)
  {
    var i := |s.pending| - 1;
    ApplyKeeps(s, i, faults.apply);
    var o1 := ApplyCall(s, request.operationId, request.interfaceId, faults.apply);
    var o2 := o1;
    if o1.result.Ok? {
      o2 := VerifyCall(o1.state, request.interfaceId, request.desired, faults.verify);
      QuietCallKeeps(o1.state, Verify(request.interfaceId));
      KeepsTransitive(s, o1.state, o2.state);
    }
    assert o2.state.pending == s.pending;
    if o2.result.Err? {
      RollbackKeeps(o2.state, request.operationId, faults.rollback);
      KeepsTransitive(s, o2.state, RollbackInternal(o2.state, request.operationId, faults.rollback).state);
    } else if o2.result.Ok? {
      ReplaceKeeps(o2.state, i, PendingConfirmation, faults.confirmation);
      KeepsTransitive(s, o2.state, ReplaceRecord(o2.state, record.(state := PendingConfirmation),
          faults.confirmation).state);
    }
  }

  lemma ApplyPreparedKeeps(s: State, request: Request, record: Record, faults: BeginFaults)
    requires Inv(s) && Admissible(s, record)
    requires record.operationId == request.operationId && record.targetInterface == request.interfaceId
    requires record.newStateHash == Sha256(request.desired)
    requires request.interfaceId in s.net
    requires s.snapshots[record.snapshotId].content == s.net[request.interfaceId]
    ensures Keeps(s, ApplyPrepared(s, request, record, faults).state)
  {
    var s1 := s.(pending := s.pending + [record]);
    AppendKeeps(s, record);
    NotYetApplied(s, record.operationId);
    var o1 := Persist(s1, faults.prepared);
    PersistKeeps(s1, faults.prepared);
    KeepsTransitive(s, s1, o1.state);
    if o1.result.Ok? {
      ApplyRecordedKeeps(o1.state, request, record, faults);
      KeepsTransitive(s, o1.state, ApplyRecorded(o1.state, request, record, faults).state);
    }
  }

  lemma StoreKeeps(s: State, snapshot: Snapshot)
    requires Inv(s)
    ensures Keeps(s, s.(snapshots := s.snapshots + [snapshot]))
  {
    var t := s.(snapshots := s.snapshots + [snapshot]);
    forall k | 0 <= k < |t.calls| && t.calls[k].Apply?
      ensures WrittenAhead(t.calls[k], t.file, t.snapshots)
    {
      WrittenAheadLater(t.calls[k], s, t);
    }
    assert forall i :: 0 <= i < |s.pending| && Names(s.pending[i], s.snapshots) ==> Names(s.pending[i], t.snapshots);
    assert forall i :: 0 <= i < |s.file| && Names(s.file[i], s.snapshots) ==> Names(s.file[i], t.snapshots);
  }

  lemma SnapshotKeeps(s: State, interface: string, fault: SnapshotFault)
    requires Inv(s)
    ensures Keeps(s, SnapshotCall(s, interface, fault).state)
  {
    var s1 := s.(calls := s.calls + [TakeSnapshot(interface)]);
    QuietCallKeeps(s, TakeSnapshot(interface));
    if interface in s.net {
      var snapshot := Snapshot(interface, s.net[interface]);
      StoreKeeps(s1, snapshot);
      KeepsTransitive(s, s1, s1.(snapshots := s.snapshots + [snapshot]));
    }
  }

  lemma NewRecordAdmissible(s: State, request: Request, fault: SnapshotFault)
    requires Inv(s) && SnapshotCall(s, request.interfaceId, fault).result.Ok?
    requires Find(s.pending, request.operationId) == |s.pending|
    requires !InterfaceBusy(s.pending, request.interfaceId)
    ensures Admissible(SnapshotCall(s, request.interfaceId, fault).state,
                       NewRecord(s, request, SnapshotCall(s, request.interfaceId, fault).result.value))
  {
    assert forall i :: 0 <= i < |s.pending| ==> Names(s.pending[i], s.snapshots);
  }

  lemma SnapshotAndApplyKeeps(s: State, request: Request, faults: BeginFaults)
    requires Inv(s)
    requires Find(s.pending, request.operationId) == |s.pending|
    requires !InterfaceBusy(s.pending, request.interfaceId)
    ensures Keeps(s, SnapshotAndApply(s, request, faults).state)
  {
    var taken := SnapshotCall(s, request.interfaceId, faults.snapshot);
    SnapshotKeeps(s, request.interfaceId, faults.snapshot);
    if taken.result.Ok? && request.now + request.confirmTimeout <= U64_MAX {
      var record := NewRecord(s, request, taken.result.value);
      var t := ApplyPrepared(taken.state, request, record, faults).state;
      assert Keeps(taken.state, t) by {
        NewRecordAdmissible(s, request, faults.snapshot);
        ApplyPreparedKeeps(taken.state, request, record, faults);
      }
      KeepsTransitive(s, taken.state, t);
    }
  }

  lemma BeginKeeps(s: State, request: Request, faults: BeginFaults)
    requires Inv(s)
    ensures Keeps(s, Begin(s, request, faults).state)
  {
    if && WellFormed(request)
       && Find(s.pending, request.operationId) == |s.pending|
       && !InterfaceBusy(s.pending, request.interfaceId)
    {
      SnapshotAndApplyKeeps(s, request, faults);
    } else {
      assert Begin(s, request, faults).state == s;
    }
  }

  lemma {:induction false} RollbackEachKeeps(s: State, ids: seq<string>, k: nat, faults: seq<RollbackFaults>)
    requires Inv(s) && k <= |ids|
    ensures Keeps(s, RollbackEach(s, ids, k, faults).state)
    decreases |ids| - k
  {
    if k < |ids| {
      RollbackKeeps(s, ids[k], FaultsAt(faults, k));
      var o := RollbackInternal(s, ids[k], FaultsAt(faults, k));
      if o.result.Ok? {
        RollbackEachKeeps(o.state, ids, k + 1, faults);
        KeepsTransitive(s, o.state, RollbackEach(o.state, ids, k + 1, faults).state);
      }
    }
  }
}
