/** The Safe Apply transaction manager: a state list held in memory and mirrored in a state file,
    driving a network executor, where every write, every audit and every executor call may fail or
    be the last thing the process does.

    `State` is everything an operation touches.  The functions below give each operation's effect on
    it for every pattern of faults; the class in SafeApplyManager.dfy is the imperative form. */
module SafeApply {
  import opened Common
  import opened Text

  /** Canonical text of an interface's configuration. */
  type NetState = string

  /** SHA-256 of a canonical text, taken to be injective. */
  datatype Digest = Sha256(content: NetState)

  datatype ApplyState = Prepared | PendingConfirmation | Confirmed | RollingBack | RolledBack | Failed

  predicate IsPending(state: ApplyState) {
    state.Prepared? || state.PendingConfirmation? || state.RollingBack?
  }

  datatype Record = Record(
    operationId: string,
    targetInterface: string,
    snapshotId: nat,
    deadline: nat,
    state: ApplyState,
    oldStateHash: Digest,
    newStateHash: Digest)
  {
    predicate Active() {
      IsPending(state)
    }
  }

  datatype Snapshot = Snapshot(interface: string, content: NetState)

  /** Executor calls, in the order they were made.  `Apply` carries the operation it was made for and
      the interface's configuration at that moment; the executor itself sees neither. */
  datatype Call =
    | TakeSnapshot(interface: string)
    | Apply(operationId: string, target: string, before: NetState)
    | Verify(interface: string)
    | Restore(snapshotId: nat)

  /** `pending` is the manager's memory.  The rest outlives the process: the state file, the
      interfaces, the snapshots (indexed by their identifier) and the history of executor calls. */
  datatype State = State(
    pending: seq<Record>,
    file: seq<Record>,
    net: map<string, NetState>,
    snapshots: seq<Snapshot>,
    calls: seq<Call>)

  datatype Error =
    | InvalidArgument | OperationConflict | ResourceConflict | InvalidState
    | PersistenceFailed | ExecutorFailed | RollbackFailed

  /** `Died` is the process ending inside the operation. */
  datatype Result<T> = Ok(value: T) | Err(error: Error) | Died

  datatype Outcome<T> = Outcome(state: State, result: Result<T>)

  // ---- Faults ----

  /** Writing the state file: `published` says whether the rename took effect. */
  datatype Write = Written | WriteFailed(published: bool) | WriteDied(published: bool)

  datatype Verdict = Succeeds | Fails | Dies

  /** A snapshot call that does not succeed may still have stored its snapshot. */
  datatype SnapshotFault = SnapshotFault(verdict: Verdict, stored: bool)

  /** `after` is the configuration the call leaves behind; for a successful restore it is ignored. */
  datatype ChangeFault = ChangeFault(verdict: Verdict, after: NetState)

  datatype RollbackFaults = RollbackFaults(rolling: Write, restore: ChangeFault, final: Write, audit: Verdict)

  datatype BeginFaults = BeginFaults(
    snapshot: SnapshotFault, prepared: Write, apply: ChangeFault, verify: Verdict,
    rollback: RollbackFaults, confirmation: Write, audit: Verdict)

  datatype ConfirmFaults = ConfirmFaults(write: Write, audit: Verdict)

  const NoWriteFaults := RollbackFaults(Written, ChangeFault(Succeeds, ""), Written, Succeeds)

  /** The faults met by the k-th rollback of a recovery pass; beyond the list there are none. */
  function FaultsAt(faults: seq<RollbackFaults>, k: nat): RollbackFaults {
    if k < |faults| then faults[k] else NoWriteFaults
  }

  // ---- Searching the list ----

  /** Position of the first record of an operation, or the length of the list. */
  function Find(records: seq<Record>, operationId: string): (i: nat)
    ensures i <= |records|
    ensures i < |records| ==> records[i].operationId == operationId
    ensures forall j :: 0 <= j < i ==> records[j].operationId != operationId
  {
    if records == [] || records[0].operationId == operationId then 0
    else 1 + Find(records[1..], operationId)
  }

  /** Position of the first active record of an operation, or the length of the list. */
  function FindActive(records: seq<Record>, operationId: string): (i: nat)
    ensures i <= |records|
    ensures i < |records| ==> records[i].operationId == operationId && records[i].Active()
    ensures forall j :: 0 <= j < i ==> records[j].operationId != operationId || !records[j].Active()
  {
    if records == [] || (records[0].operationId == operationId && records[0].Active()) then 0
    else 1 + FindActive(records[1..], operationId)
  }

  predicate InterfaceBusy(records: seq<Record>, interface: string) {
    exists i :: 0 <= i < |records| && records[i].Active() && records[i].targetInterface == interface
  }

  predicate Expired(record: Record, now: nat) {
    record.Active() && record.deadline <= now
  }

  function ExpiredIds(records: seq<Record>, now: nat): (ids: seq<string>)
    ensures forall id :: id in ids <==>
      exists i :: 0 <= i < |records| && Expired(records[i], now) && records[i].operationId == id
  {
    if records == [] then []
    else
      assert forall i :: 0 < i < |records| ==> records[i] == records[1..][i - 1];
      assert records == [records[0]] + records[1..];
      (if Expired(records[0], now) then [records[0].operationId] else []) + ExpiredIds(records[1..], now)
  }

  // ---- Steps of an operation ----

  function Persist(s: State, write: Write): Outcome<()> {
    match write
    case Written => Outcome(s.(file := s.pending), Ok(()))
    case WriteFailed(published) => Outcome(if published then s.(file := s.pending) else s, Err(PersistenceFailed))
    case WriteDied(published) => Outcome(if published then s.(file := s.pending) else s, Died)
  }

  function Audit(s: State, verdict: Verdict): Outcome<()> {
    Outcome(s, match verdict case Succeeds => Ok(()) case Fails => Err(PersistenceFailed) case Dies => Died)
  }

  function ReplaceRecord(s: State, record: Record, write: Write): Outcome<()> {
    var i := Find(s.pending, record.operationId);
    if i == |s.pending| then Outcome(s, Err(InvalidState))
    else Persist(s.(pending := s.pending[i := record]), write)
  }

  /** The interface must exist for its configuration to be readable. */
  function SnapshotCall(s: State, interface: string, fault: SnapshotFault): Outcome<nat> {
    var s1 := s.(calls := s.calls + [TakeSnapshot(interface)]);
    if interface !in s.net then Outcome(s1, if fault.verdict.Dies? then Died else Err(ExecutorFailed))
    else
      var s2 := s1.(snapshots := s.snapshots + [Snapshot(interface, s.net[interface])]);
      match fault.verdict
      case Succeeds => Outcome(s2, Ok(|s.snapshots|))
      case Fails => Outcome(if fault.stored then s2 else s1, Err(ExecutorFailed))
      case Dies => Outcome(if fault.stored then s2 else s1, Died)
  }

  function ApplyCall(s: State, operationId: string, interface: string, fault: ChangeFault): Outcome<()>
    requires interface in s.net
  {
    Outcome(
      s.(net := s.net[interface := fault.after], calls := s.calls + [Apply(operationId, interface, s.net[interface])]),
      match fault.verdict case Succeeds => Ok(()) case Fails => Err(ExecutorFailed) case Dies => Died)
  }

  /** Verification never succeeds on an interface that does not carry the desired configuration. */
  function VerifyCall(s: State, interface: string, desired: NetState, verdict: Verdict): Outcome<()> {
    Outcome(
      s.(calls := s.calls + [Verify(interface)]),
      match verdict
      case Succeeds => if interface in s.net && s.net[interface] == desired then Ok(()) else Err(ExecutorFailed)
      case Fails => Err(ExecutorFailed)
      case Dies => Died)
  }

  function RestoreCall(s: State, snapshotId: nat, fault: ChangeFault): Outcome<()> {
    var s1 := s.(calls := s.calls + [Restore(snapshotId)]);
    if snapshotId >= |s.snapshots| then Outcome(s1, if fault.verdict.Dies? then Died else Err(ExecutorFailed))
    else
      var Snapshot(interface, content) := s.snapshots[snapshotId];
      match fault.verdict
      case Succeeds => Outcome(s1.(net := s.net[interface := content]), Ok(()))
      case Fails => Outcome(s1.(net := s.net[interface := fault.after]), Err(ExecutorFailed))
      case Dies => Outcome(s1.(net := s.net[interface := fault.after]), Died)
  }

  // ---- Operations ----

  function RollbackInternal(s: State, operationId: string, faults: RollbackFaults): Outcome<()> {
    var i := FindActive(s.pending, operationId);
    if i == |s.pending| then Outcome(s, Err(InvalidState))
    else
      var record := s.pending[i];
      var o1 := ReplaceRecord(s, record.(state := RollingBack), faults.rolling);
      if !o1.result.Ok? then o1 else RestoreRecord(o1.state, record, faults)
  }

  /** The part of a rollback after its intent is on file. */
  function RestoreRecord(s: State, record: Record, faults: RollbackFaults): Outcome<()> {
    var o1 := RestoreCall(s, record.snapshotId, faults.restore);
    if o1.result.Died? then o1
    else
      var o2 := ReplaceRecord(o1.state, record.(state := if o1.result.Ok? then RolledBack else Failed), faults.final);
      if !o2.result.Ok? then o2
      else
        var o3 := Audit(o2.state, faults.audit);
        if !o3.result.Ok? then o3 else Outcome(o3.state, o1.result)
  }

  function Confirm(s: State, operationId: string, now: nat, faults: ConfirmFaults): Outcome<Record> {
    var i := FindActive(s.pending, operationId);
    if i == |s.pending| then Outcome(s, Err(InvalidState))
    else if now >= s.pending[i].deadline then Outcome(s, Err(InvalidState))
    else
      var record := s.pending[i].(state := Confirmed);
      var o1 := ReplaceRecord(s, record, faults.write);
      var o2 := if o1.result.Ok? then Audit(o1.state, faults.audit) else o1;
      Outcome(o2.state, Then(o2.result, record))
  }

  function Then<T>(result: Result<()>, value: T): Result<T> {
    match result case Ok(_) => Ok(value) case Err(e) => Err(e) case Died => Died
  }

  datatype Request = Request(
    operationId: string, interfaceId: string, desired: NetState, desiredValid: bool,
    confirmTimeout: nat, now: nat)

  predicate WellFormed(request: Request) {
    && !IsBlank(request.operationId)
    && !IsBlank(request.interfaceId)
    && 10 <= request.confirmTimeout <= 600
    && request.desiredValid
  }

  function Begin(s: State, request: Request, faults: BeginFaults): Outcome<Record> {
    if !WellFormed(request) then Outcome(s, Err(InvalidArgument))
    else
      var i := Find(s.pending, request.operationId);
      if i < |s.pending| then
        if s.pending[i].Active()
           && s.pending[i].targetInterface == request.interfaceId
           && s.pending[i].newStateHash == Sha256(request.desired)
        then Outcome(s, Ok(s.pending[i]))
        else Outcome(s, Err(OperationConflict))
      else if InterfaceBusy(s.pending, request.interfaceId) then Outcome(s, Err(ResourceConflict))
      else SnapshotAndApply(s, request, faults)
  }

  /** The part of `begin` after its checks. */
  function SnapshotAndApply(s: State, request: Request, faults: BeginFaults): Outcome<Record> {
    var taken := SnapshotCall(s, request.interfaceId, faults.snapshot);
    match taken.result
    case Err(e) => Outcome(taken.state, Err(e))
    case Died => Outcome(taken.state, Died)
    case Ok(snapshotId) =>
      if request.now + request.confirmTimeout > U64_MAX then Outcome(taken.state, Err(InvalidArgument))
      else ApplyPrepared(taken.state, request, NewRecord(s, request, snapshotId), faults)
  }

  function NewRecord(s: State, request: Request, snapshotId: nat): Record
    requires request.interfaceId in s.net
  {
    Record(request.operationId, request.interfaceId, snapshotId, request.now + request.confirmTimeout,
           Prepared, Sha256(s.net[request.interfaceId]), Sha256(request.desired))
  }

  /** The part of `begin` after its snapshot: record the intent, then change the interface. */
  function ApplyPrepared(s: State, request: Request, record: Record, faults: BeginFaults): Outcome<Record>
    requires request.interfaceId in s.net
  {
    var o1 := Persist(s.(pending := s.pending + [record]), faults.prepared);
    if !o1.result.Ok? then Outcome(o1.state, Then(o1.result, record))
    else ApplyRecorded(o1.state, request, record, faults)
  }

  /** The part of `begin` after the prepared record is on file. */
  function ApplyRecorded(s: State, request: Request, record: Record, faults: BeginFaults): Outcome<Record>
    requires request.interfaceId in s.net
  {
    var o1 := ApplyCall(s, request.operationId, request.interfaceId, faults.apply);
    var o2 := if o1.result.Ok? then VerifyCall(o1.state, request.interfaceId, request.desired, faults.verify) else o1;
    match o2.result
    case Died => Outcome(o2.state, Died)
    case Err(e) =>
      var o3 := RollbackInternal(o2.state, request.operationId, faults.rollback);
      Outcome(o3.state, match o3.result case Ok(_) => Err(e) case Err(_) => Err(RollbackFailed) case Died => Died)
    case Ok(_) =>
      var confirmable := record.(state := PendingConfirmation);
      var o3 := ReplaceRecord(o2.state, confirmable, faults.confirmation);
      var o4 := if o3.result.Ok? then Audit(o3.state, faults.audit) else o3;
      Outcome(o4.state, Then(o4.result, confirmable))
  }

  /** Roll back the operations from position k on, stopping at the first failure. */
  function RollbackEach(s: State, ids: seq<string>, k: nat, faults: seq<RollbackFaults>): Outcome<()>
    requires k <= |ids|
    decreases |ids| - k
  {
    if k == |ids| then Outcome(s, Ok(()))
    else
      var o := RollbackInternal(s, ids[k], FaultsAt(faults, k));
      if !o.result.Ok? then o else RollbackEach(o.state, ids, k + 1, faults)
  }

  function RecoverExpired(s: State, now: nat, faults: seq<RollbackFaults>): Outcome<seq<string>> {
    var ids := ExpiredIds(s.pending, now);
    var o := RollbackEach(s, ids, 0, faults);
    Outcome(o.state, Then(o.result, ids))
  }
}
