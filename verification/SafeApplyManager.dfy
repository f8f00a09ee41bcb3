/** The manager as the source writes it: methods that update the in-memory list and the state file in
    place.  Each method is proved equal to its function in SafeApply, for every pattern of faults. */
module SafeApplyManager {
  import opened Common
  import opened SafeApply

  class Manager {
    var pending: seq<Record>
    // The rest belongs to the machine and outlives the manager.
    var file: seq<Record>
    var net: map<string, NetState>
    var snapshots: seq<Snapshot>
    ghost var calls: seq<Call>

    ghost function View(): State
      reads this
    {
      State(pending, file, net, snapshots, calls)
    }

    /** Opening reads the state file into memory. */
    constructor (file: seq<Record>, net: map<string, NetState>, snapshots: seq<Snapshot>, ghost calls: seq<Call>)
      ensures View() == State(file, file, net, snapshots, calls)
    {
      this.pending, this.file, this.net, this.snapshots, this.calls := file, file, net, snapshots, calls;
    }

    method Persist(write: Write) returns (r: Result<()>)
      modifies this`file
      ensures Outcome(View(), r) == SafeApply.Persist(old(View()), write)
    {
      match write {
        case Written =>
          file := pending;
          return Ok(());
        case WriteFailed(published) =>
          if published { file := pending; }
          return Err(PersistenceFailed);
        case WriteDied(published) =>
          if published { file := pending; }
          return Died;
      }
    }

    method ReplaceRecord(record: Record, write: Write) returns (r: Result<()>)
      modifies this`pending, this`file
      ensures Outcome(View(), r) == SafeApply.ReplaceRecord(old(View()), record, write)
    {
      var i := Find(pending, record.operationId);
      if i == |pending| {
        return Err(InvalidState);
      }
      pending := pending[i := record];
      r := Persist(write);
    }

    method AppendAudit(verdict: Verdict) returns (r: Result<()>)
      ensures Outcome(View(), r) == SafeApply.Audit(View(), verdict)
    {
      match verdict
      case Succeeds => return Ok(());
      case Fails => return Err(PersistenceFailed);
      case Dies => return Died;
    }

    method TakeSnapshot(interface: string, fault: SnapshotFault) returns (r: Result<nat>)
      modifies this`snapshots, this`calls
      ensures Outcome(View(), r) == SnapshotCall(old(View()), interface, fault)
    {
      calls := calls + [Call.TakeSnapshot(interface)];
      if interface !in net {
        return if fault.verdict.Dies? then Died else Err(ExecutorFailed);
      }
      var id := |snapshots|;
      if fault.verdict.Succeeds? || fault.stored {
        snapshots := snapshots + [Snapshot(interface, net[interface])];
      }
      match fault.verdict
      case Succeeds => return Ok(id);
      case Fails => return Err(ExecutorFailed);
      case Dies => return Died;
    }

    method Apply(ghost operationId: string, interface: string, fault: ChangeFault) returns (r: Result<()>)
      requires interface in net
      modifies this`net, this`calls
      ensures Outcome(View(), r) == ApplyCall(old(View()), operationId, interface, fault)
    {
      calls := calls + [Call.Apply(operationId, interface, net[interface])];
      net := net[interface := fault.after];
      match fault.verdict
      case Succeeds => return Ok(());
      case Fails => return Err(ExecutorFailed);
      case Dies => return Died;
    }

    method Verify(interface: string, desired: NetState, verdict: Verdict) returns (r: Result<()>)
      modifies this`calls
      ensures Outcome(View(), r) == VerifyCall(old(View()), interface, desired, verdict)
    {
      calls := calls + [Call.Verify(interface)];
      match verdict {
        case Succeeds =>
          if interface in net && net[interface] == desired {
            return Ok(());
          }
          return Err(ExecutorFailed);
        case Fails => return Err(ExecutorFailed);
        case Dies => return Died;
      }
    }

    method Restore(snapshotId: nat, fault: ChangeFault) returns (r: Result<()>)
      modifies this`net, this`calls
      ensures Outcome(View(), r) == RestoreCall(old(View()), snapshotId, fault)
    {
      calls := calls + [Call.Restore(snapshotId)];
      if snapshotId >= |snapshots| {
        return if fault.verdict.Dies? then Died else Err(ExecutorFailed);
      }
      var Snapshot(interface, content) := snapshots[snapshotId];
      net := net[interface := if fault.verdict.Succeeds? then content else fault.after];
      match fault.verdict
      case Succeeds => return Ok(());
      case Fails => return Err(ExecutorFailed);
      case Dies => return Died;
    }

    method RollbackInternal(operationId: string, faults: RollbackFaults) returns (r: Result<()>)
      modifies this
      ensures Outcome(View(), r) == SafeApply.RollbackInternal(old(View()), operationId, faults)
    {
      var i := FindActive(pending, operationId);
      if i == |pending| {
        return Err(InvalidState);
      }
      var record := pending[i];
      record := record.(state := RollingBack);
      r := ReplaceRecord(record, faults.rolling);
      if !r.Ok? { return; }
      r := RestoreRecord(record, faults);
    }

    method RestoreRecord(current: Record, faults: RollbackFaults) returns (r: Result<()>)
      modifies this
      ensures Outcome(View(), r) == SafeApply.RestoreRecord(old(View()), current, faults)
    {
      var record := current;
      var restored := Restore(record.snapshotId, faults.restore);
      if restored.Died? { return Died; }
      record := record.(state := if restored.Ok? then RolledBack else Failed);
      r := ReplaceRecord(record, faults.final);
      if !r.Ok? { return; }
      r := AppendAudit(faults.audit);
      if !r.Ok? { return; }
      return restored;
    }

    /** `rollback`: the explicit form adds nothing to the internal one but its audit text. */
    method Rollback(operationId: string, faults: RollbackFaults) returns (r: Result<()>)
      modifies this
      ensures Outcome(View(), r) == SafeApply.RollbackInternal(old(View()), operationId, faults)
    {
      r := RollbackInternal(operationId, faults);
    }

    method ConfirmAt(operationId: string, now: nat, faults: ConfirmFaults) returns (r: Result<Record>)
      modifies this
      ensures Outcome(View(), r) == SafeApply.Confirm(old(View()), operationId, now, faults)
    {
      var i := FindActive(pending, operationId);
      if i == |pending| {
        return Err(InvalidState);
      }
      var record := pending[i];
      if now >= record.deadline {
        return Err(InvalidState);
      }
      record := record.(state := Confirmed);
      var done := ReplaceRecord(record, faults.write);
      if done.Ok? {
        done := AppendAudit(faults.audit);
      }
      return Then(done, record);
    }

    method Begin(request: Request, faults: BeginFaults) returns (r: Result<Record>)
      modifies this
      ensures Outcome(View(), r) == SafeApply.Begin(old(View()), request, faults)
    {
      if !WellFormed(request) {
        return Err(InvalidArgument);
      }
      var i := Find(pending, request.operationId);
      if i < |pending| {
        var existing := pending[i];
        if existing.Active() && existing.targetInterface == request.interfaceId
           && existing.newStateHash == Sha256(request.desired) {
          return Ok(existing);
        }
        return Err(OperationConflict);
      }
      if InterfaceBusy(pending, request.interfaceId) {
        return Err(ResourceConflict);
      }
      r := SnapshotAndApply(request, faults);
    }

    method SnapshotAndApply(request: Request, faults: BeginFaults) returns (r: Result<Record>)
      modifies this
      ensures Outcome(View(), r) == SafeApply.SnapshotAndApply(old(View()), request, faults)
    {
      var taken := TakeSnapshot(request.interfaceId, faults.snapshot);
      if !taken.Ok? {
        return if taken.Died? then Died else Err(taken.error);
      }
      if request.now + request.confirmTimeout > U64_MAX {
        return Err(InvalidArgument);
      }
      var record := Record(request.operationId, request.interfaceId, taken.value,
                           request.now + request.confirmTimeout, Prepared,
                           Sha256(net[request.interfaceId]), Sha256(request.desired));
      assert record == NewRecord(old(View()), request, taken.value);
      r := ApplyPrepared(request, record, faults);
    }

    method ApplyPrepared(request: Request, record: Record, faults: BeginFaults) returns (r: Result<Record>)
      requires request.interfaceId in net
      modifies this
      ensures Outcome(View(), r) == SafeApply.ApplyPrepared(old(View()), request, record, faults)
    {
      pending := pending + [record];
      var done := Persist(faults.prepared);
      if !done.Ok? {
        return Then(done, record);
      }
      done := Apply(request.operationId, request.interfaceId, faults.apply);
      if done.Ok? {
        done := Verify(request.interfaceId, request.desired, faults.verify);
      }
      if done.Died? { return Died; }
      if done.Err? {
        var undone := RollbackInternal(request.operationId, faults.rollback);
        match undone
        case Ok(_) => return Err(done.error);
        case Err(_) => return Err(RollbackFailed);
        case Died => return Died;
      }
      var confirmable := record.(state := PendingConfirmation);
      done := ReplaceRecord(confirmable, faults.confirmation);
      if done.Ok? {
        done := AppendAudit(faults.audit);
      }
      return Then(done, confirmable);
    }

    method RecoverExpired(now: nat, faults: seq<RollbackFaults>) returns (r: Result<seq<string>>)
      modifies this
      ensures Outcome(View(), r) == SafeApply.RecoverExpired(old(View()), now, faults)
    {
      var expired := ExpiredIds(pending, now);
      for k := 0 to |expired|
        invariant RollbackEach(View(), expired, k, faults) == RollbackEach(old(View()), expired, 0, faults)
      {
        var done := RollbackInternal(expired[k], FaultsAt(faults, k));
        if !done.Ok? {
          return Then(done, expired);
        }
      }
      return Ok(expired);
    }
  }
}
