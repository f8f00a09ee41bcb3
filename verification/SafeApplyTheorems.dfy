/** The promises of Safe Apply, for every run from a machine that never used it. */
module SafeApplyTheorems {
  import opened Common
  import opened SafeApply
  import opened SafeApplyRuns

  // ---- Runs keep the invariant ----

  ghost predicate Untouched(steps: seq<Step>) {
    forall i :: 0 <= i < |steps| ==> !steps[i].Outside?
  }

  lemma HaltKeeps(s: State)
    requires Inv(s)
    ensures Inv(Halt(s).s) && Later(s, Halt(s).s) && (Carrying(s) ==> Carrying(Halt(s).s))
  {
    forall i | 0 <= i < |s.file| ensures Follows(s.file[i], s.file[i]) {}
  }

  lemma SettleKeeps<T>(s: State, o: Outcome<T>)
    requires Keeps(s, o.state)
    ensures Inv(Settle(o).s) && Later(s, Settle(o).s) && (Carrying(s) ==> Carrying(Settle(o).s))
    ensures Settle(o).Running? ==> Settle(o).s == o.state
  {
    HaltKeeps(o.state);
    if o.result.Died? {
      LaterTransitive(s, o.state, Halt(o.state).s);
    }
  }

  lemma NextKeeps(w: World, step: Step)
    requires Inv(w.s)
    ensures Inv(Next(w, step).s) && Later(w.s, Next(w, step).s)
    ensures Carrying(w.s) && !step.Outside? ==> Carrying(Next(w, step).s)
    ensures w.Running? && Next(w, step).Running? ==> Extends(w.s.pending, Next(w, step).s.pending)
  {
    match (w, step)
    case (Running(s), BeginStep(request, faults)) =>
      BeginKeeps(s, request, faults);
      SettleKeeps(s, Begin(s, request, faults));
    case (Running(s), ConfirmStep(id, now, faults)) =>
      ConfirmKeeps(s, id, now, faults);
      SettleKeeps(s, Confirm(s, id, now, faults));
    case (Running(s), RollbackStep(id, faults)) =>
      RollbackKeeps(s, id, faults);
      SettleKeeps(s, RollbackInternal(s, id, faults));
    case (Running(s), RecoverStep(now, faults)) =>
      RollbackEachKeeps(s, ExpiredIds(s.pending, now), 0, faults);
      SettleKeeps(s, RecoverExpired(s, now, faults));
    case (Running(s), Stop) => HaltKeeps(s);
    case (Stopped(s), Open(_)) => HaltKeeps(s);
    case (_, Outside(interface, content)) =>
      assert Inv(w.s.(net := w.s.net[interface := content]));
    case _ =>
  }

  lemma {:induction false} RunKeeps(w: World, steps: seq<Step>)
    requires Inv(w.s)
    ensures Inv(Run(w, steps).s) && Later(w.s, Run(w, steps).s)
    ensures Carrying(w.s) && Untouched(steps) ==> Carrying(Run(w, steps).s)
    decreases |steps|
  {
    if steps != [] {
      var v := Next(w, steps[0]);
      NextKeeps(w, steps[0]);
      RunKeeps(v, steps[1..]);
      LaterTransitive(w.s, v.s, Run(v, steps[1..]).s);
      if Untouched(steps) {
        assert forall i :: 0 <= i < |steps[1..]| ==> steps[1..][i] == steps[i + 1];
      }
    }
  }

  // ---- Write-ahead, uniqueness, at most once ----

  /** Whenever an interface has been changed for an operation, the state file holds that operation's
      record, naming the snapshot of what was there before; and while the operation is unfinished in
      memory it is unfinished on file. */
  lemma WriteAhead(net: map<string, NetState>, steps: seq<Step>, k: nat)
    requires var s := Run(Fresh(net), steps).s; k < |s.calls| && s.calls[k].Apply?
    ensures var w := Run(Fresh(net), steps);
            exists i :: 0 <= i < |w.s.file| && Recorded(w.s.calls[k], w.s.file[i], w.s.snapshots)
              && i < |w.s.pending| && w.s.pending[i].operationId == w.s.calls[k].operationId
              && (w.s.pending[i].Active() ==> w.s.file[i].Active())
  {
    RunKeeps(Fresh(net), steps);
    var s := Run(Fresh(net), steps).s;
    var i :| 0 <= i < |s.file| && Recorded(s.calls[k], s.file[i], s.snapshots);
    assert Follows(s.file[i], s.pending[i]);
  }

  /** Operation identifiers stay unique and each interface has at most one unfinished operation, in
      memory and on file; no operation is ever applied twice, restarts included. */
  lemma UniqueAndAppliedOnce(net: map<string, NetState>, steps: seq<Step>)
    ensures var s := Run(Fresh(net), steps).s;
            && UniqueIds(s.pending) && OnePerInterface(s.pending)
            && UniqueIds(s.file) && OnePerInterface(s.file)
            && AppliedOnce(s.calls)
  {
    RunKeeps(Fresh(net), steps);
  }

  /** Repeating a request whose operation is unfinished changes nothing and calls nobody. */
  lemma RetryReturnsStoredRecord(
      net: map<string, NetState>, steps: seq<Step>, i: nat, request: Request, faults: BeginFaults)
    requires var w := Run(Fresh(net), steps);
             && w.Running? && i < |w.s.pending| && WellFormed(request)
             && w.s.pending[i].Active()
             && w.s.pending[i].operationId == request.operationId
             && w.s.pending[i].targetInterface == request.interfaceId
             && w.s.pending[i].newStateHash == Sha256(request.desired)
    ensures var s := Run(Fresh(net), steps).s; Begin(s, request, faults) == Outcome(s, Ok(s.pending[i]))
  {
    RunKeeps(Fresh(net), steps);
    FindUnique(Run(Fresh(net), steps).s.pending, i);
  }

  // ---- Finished operations stay finished ----

  /** A record finished on file is never altered again and its snapshot is never restored again. */
  lemma FinishedOnFile(w: World, steps: seq<Step>, i: nat)
    requires Inv(w.s) && i < |w.s.file| && !w.s.file[i].Active()
    ensures var t := Run(w, steps).s;
            && i < |t.file| && t.file[i] == w.s.file[i]
            && i < |t.pending| && t.pending[i] == w.s.file[i]
            && |w.s.calls| <= |t.calls|
            && forall k :: |w.s.calls| <= k < |t.calls| ==> t.calls[k] != Restore(w.s.file[i].snapshotId)
  {
    RunKeeps(w, steps);
    var t := Run(w, steps).s;
    assert Follows(w.s.file[i], t.file[i]);
    assert Follows(t.file[i], t.pending[i]);
  }

  lemma ConfirmReachesFile(s: State, id: string, now: nat, faults: ConfirmFaults)
    requires Inv(s) && Confirm(s, id, now, faults).result.Ok?
    ensures var o := Confirm(s, id, now, faults);
            var i := FindActive(s.pending, id);
            && Inv(o.state) && o.state.calls == s.calls && o.state.net == s.net
            && i < |o.state.file| && o.state.file[i] == o.result.value
            && o.result.value == s.pending[i].(state := Confirmed) && now < s.pending[i].deadline
  {
    ConfirmKeeps(s, id, now, faults);
    FindUnique(s.pending, FindActive(s.pending, id));
  }

  /** Once a confirmation is acknowledged, which takes a clock before the deadline, nothing that can
      happen later makes the manager restore that operation's snapshot. */
  lemma DurableConfirm(
      net: map<string, NetState>, before: seq<Step>, id: string, now: nat, faults: ConfirmFaults, after: seq<Step>)
    requires Run(Fresh(net), before).Running?
    requires Confirm(Run(Fresh(net), before).s, id, now, faults).result.Ok?
    ensures var s := Run(Fresh(net), before).s;
            var o := Confirm(s, id, now, faults);
            var t := Run(Running(o.state), after).s;
            var record := o.result.value;
            && record.operationId == id && record.state.Confirmed? && now < record.deadline
            && record in t.file && record in t.pending
            && |s.calls| <= |t.calls|
            && forall k :: |s.calls| <= k < |t.calls| ==> t.calls[k] != Restore(record.snapshotId)
  {
    RunKeeps(Fresh(net), before);
    var s := Run(Fresh(net), before).s;
    var o := Confirm(s, id, now, faults);
    ConfirmReachesFile(s, id, now, faults);
    FinishedOnFile(Running(o.state), after, FindActive(s.pending, id));
  }

  /** Between restarts a finished record never changes in memory either. */
  lemma {:induction false} FinishedInMemory(w: World, steps: seq<Step>)
    requires Inv(w.s) && w.Running?
    requires forall n :: 0 <= n <= |steps| ==> Run(w, steps[..n]).Running?
    ensures Extends(w.s.pending, Run(w, steps).s.pending)
    decreases |steps|
  {
    assert steps[..|steps|] == steps;
    if steps == [] {
      forall i | 0 <= i < |w.s.pending| ensures Follows(w.s.pending[i], w.s.pending[i]) {}
    } else {
      var v := Next(w, steps[0]);
      NextKeeps(w, steps[0]);
      assert steps[..1] == [steps[0]] && steps[..1][1..] == [];
      assert Run(w, steps[..1]) == Run(v, []) == v;
      forall n | 0 <= n <= |steps[1..]| ensures Run(v, steps[1..][..n]).Running? {
        assert steps[..n + 1][1..] == steps[1..][..n];
        assert Run(w, steps[..n + 1]) == Run(v, steps[1..][..n]);
      }
      FinishedInMemory(v, steps[1..]);
      ExtendsTransitive(w.s.pending, v.s.pending, Run(w, steps).s.pending);
    }
  }

  // ---- Rolling back ----

  /** t is s with the n-th operation rolled back: its interface carries its snapshot again, no other
      interface and no other record differs, and the file agrees with memory. */
  ghost predicate RolledBackAt(s: State, t: State, n: nat) {
    && n < |s.pending|
    && Names(s.pending[n], s.snapshots)
    && t.pending == s.pending[n := s.pending[n].(state := RolledBack)]
    && t.file == t.pending
    && t.net == s.net[s.pending[n].targetInterface := s.snapshots[s.pending[n].snapshotId].content]
    && t.snapshots == s.snapshots
    && t.calls == s.calls + [Restore(s.pending[n].snapshotId)]
  }

  lemma RestoreRecordRestores(s: State, n: nat, r: Record, faults: RollbackFaults)
    requires Inv(s) && s.file == s.pending && n < |s.pending| && s.pending[n] == r.(state := RollingBack)
    requires RestoreRecord(s, r, faults).result.Ok?
    ensures RolledBackAt(s, RestoreRecord(s, r, faults).state, n)
  {
    assert Names(s.pending[n], s.snapshots);
    FindUnique(s.pending, n);
  }

  lemma RollbackRestores(s: State, id: string, faults: RollbackFaults)
    requires Inv(s) && RollbackInternal(s, id, faults).result.Ok?
    ensures RolledBackAt(s, RollbackInternal(s, id, faults).state, FindActive(s.pending, id))
  {
    var n := FindActive(s.pending, id);
    var r := s.pending[n];
    assert Names(r, s.snapshots);
    ReplaceKeeps(s, n, RollingBack, faults.rolling);
    var o := ReplaceRecord(s, r.(state := RollingBack), faults.rolling);
    RestoreRecordRestores(o.state, n, r, faults);
    assert s.pending[n := r.(state := RollingBack)][n := r.(state := RolledBack)]
        == s.pending[n := r.(state := RolledBack)];
  }

  ghost predicate StorageWorks(faults: RollbackFaults) {
    faults.rolling.Written? && faults.final.Written? && !faults.restore.verdict.Dies?
  }

  ghost predicate FinishedAt(s: State, t: State, n: nat, final: ApplyState)
    requires n < |s.pending|
  {
    t.pending == s.pending[n := s.pending[n].(state := final)] && t.file == t.pending
  }

  lemma RestoreRecordFinishes(s: State, n: nat, r: Record, faults: RollbackFaults)
    requires Inv(s) && n < |s.pending| && s.pending[n] == r.(state := RollingBack) && StorageWorks(faults)
    ensures FinishedAt(s, RestoreRecord(s, r, faults).state, n,
                       if faults.restore.verdict.Succeeds? then RolledBack else Failed)
  {
    assert Names(s.pending[n], s.snapshots);
    FindUnique(s.pending, n);
  }

  /** While storage works a rollback finishes its operation whether or not the restore succeeds. */
  lemma RollbackFinishes(s: State, id: string, faults: RollbackFaults)
    requires Inv(s) && StorageWorks(faults) && FindActive(s.pending, id) < |s.pending|
    ensures FinishedAt(s, RollbackInternal(s, id, faults).state, FindActive(s.pending, id),
                       if faults.restore.verdict.Succeeds? then RolledBack else Failed)
  {
    var n := FindActive(s.pending, id);
    var r := s.pending[n];
    ReplaceKeeps(s, n, RollingBack, faults.rolling);
    var o := ReplaceRecord(s, r.(state := RollingBack), faults.rolling);
    RestoreRecordFinishes(o.state, n, r, faults);
    assert forall final ::
        s.pending[n := r.(state := RollingBack)][n := r.(state := final)] == s.pending[n := r.(state := final)];
  }

  // ---- The watchdog ----

  /** Every identifier from position k on names an active record, each once. */
  ghost predicate Listed(s: State, ids: seq<string>, k: nat) {
    && (forall a, b :: k <= a < b < |ids| ==> ids[a] != ids[b])
    && (forall a :: k <= a < |ids| ==> FindActive(s.pending, ids[a]) < |s.pending|)
  }

  ghost predicate From(id: string, ids: seq<string>, k: nat) {
    exists a :: k <= a < |ids| && ids[a] == id
  }

  function RolledBackIf(r: Record, listed: bool): Record {
    if listed then r.(state := RolledBack) else r
  }

  /** What rolling back the identifiers from position k on has done when it succeeds. */
  ghost predicate RecordsRecovered(s: State, t: State, ids: seq<string>, k: nat) {
    && |t.pending| == |s.pending|
    && (forall i :: 0 <= i < |s.pending| ==>
          t.pending[i] == RolledBackIf(s.pending[i], From(s.pending[i].operationId, ids, k)))
  }

  ghost predicate Concerned(s: State, interface: string, ids: seq<string>, k: nat) {
    exists i ::
      0 <= i < |s.pending| && From(s.pending[i].operationId, ids, k) && s.pending[i].targetInterface == interface
  }

  ghost predicate NetRecovered(s: State, t: State, ids: seq<string>, k: nat) {
    && (forall i :: 0 <= i < |s.pending| && From(s.pending[i].operationId, ids, k) ==>
          && Names(s.pending[i], s.snapshots)
          && s.pending[i].targetInterface in t.net
          && t.net[s.pending[i].targetInterface] == s.snapshots[s.pending[i].snapshotId].content)
    && (forall interface :: !Concerned(s, interface, ids, k) ==> SameThere(s.net, t.net, interface))
  }

  /** The interface exists in both or in neither, with the same configuration. */
  ghost predicate SameThere(a: map<string, NetState>, b: map<string, NetState>, interface: string) {
    (interface in b <==> interface in a) && (interface in a ==> b[interface] == a[interface])
  }

  lemma ListedStep(s: State, t: State, ids: seq<string>, k: nat)
    requires Inv(s) && Inv(t) && k < |ids| && Listed(s, ids, k)
    requires RolledBackAt(s, t, FindActive(s.pending, ids[k]))
    ensures Listed(t, ids, k + 1)
  {
    forall a | k + 1 <= a < |ids| ensures FindActive(t.pending, ids[a]) < |t.pending| {
      var i := FindActive(s.pending, ids[a]);
      assert t.pending[i] == s.pending[i];
      FindUnique(t.pending, i);
    }
  }

  lemma FromStep(ids: seq<string>, k: nat, id: string)
    requires k < |ids|
    ensures From(id, ids, k) <==> id == ids[k] || From(id, ids, k + 1)
  {}

  /** The operations still to come concern other interfaces than the one just rolled back. */
  lemma OthersElsewhere(s: State, ids: seq<string>, k: nat, i: nat)
    requires Inv(s) && k < |ids| && Listed(s, ids, k)
    requires i < |s.pending| && From(s.pending[i].operationId, ids, k + 1)
    ensures i != FindActive(s.pending, ids[k])
    ensures s.pending[i].targetInterface != s.pending[FindActive(s.pending, ids[k])].targetInterface
  {
    var a :| k + 1 <= a < |ids| && ids[a] == s.pending[i].operationId;
    FindUnique(s.pending, i);
    assert FindActive(s.pending, ids[a]) < |s.pending|;
    assert s.pending[i].Active();
  }

  lemma RecordsStep(s: State, t: State, u: State, ids: seq<string>, k: nat)
    requires Inv(s) && k < |ids| && Listed(s, ids, k)
    requires RolledBackAt(s, t, FindActive(s.pending, ids[k])) && RecordsRecovered(t, u, ids, k + 1)
    ensures RecordsRecovered(s, u, ids, k)
  {
    var n := FindActive(s.pending, ids[k]);
    forall i | 0 <= i < |s.pending|
      ensures u.pending[i] == RolledBackIf(s.pending[i], From(s.pending[i].operationId, ids, k))
    {
      FromStep(ids, k, s.pending[i].operationId);
      if From(s.pending[i].operationId, ids, k + 1) {
        OthersElsewhere(s, ids, k, i);
      }
    }
  }

  lemma NetStep(s: State, t: State, u: State, ids: seq<string>, k: nat)
    requires Inv(s) && k < |ids| && Listed(s, ids, k)
    requires RolledBackAt(s, t, FindActive(s.pending, ids[k])) && NetRecovered(t, u, ids, k + 1)
    ensures NetRecovered(s, u, ids, k)
  {
    var n := FindActive(s.pending, ids[k]);
    var here := s.pending[n].targetInterface;
    assert !Concerned(t, here, ids, k + 1) by {
      forall i | 0 <= i < |s.pending| && From(t.pending[i].operationId, ids, k + 1)
        ensures t.pending[i].targetInterface != here
      {
        OthersElsewhere(s, ids, k, i);
      }
    }
    assert SameThere(t.net, u.net, here);
    forall i | 0 <= i < |s.pending| && From(s.pending[i].operationId, ids, k)
      ensures && Names(s.pending[i], s.snapshots)
              && s.pending[i].targetInterface in u.net
              && u.net[s.pending[i].targetInterface] == s.snapshots[s.pending[i].snapshotId].content
    {
      FromStep(ids, k, s.pending[i].operationId);
      if i != n {
        assert s.pending[i].operationId != ids[k];
        assert t.pending[i] == s.pending[i];
      }
    }
    forall interface | !Concerned(s, interface, ids, k)
      ensures SameThere(s.net, u.net, interface)
    {
      FromStep(ids, k, ids[k]);
      assert interface != here;
      forall i | 0 <= i < |s.pending| && From(t.pending[i].operationId, ids, k + 1)
        ensures t.pending[i].targetInterface != interface
      {
        FromStep(ids, k, s.pending[i].operationId);
      }
      assert SameThere(t.net, u.net, interface);
    }
  }

  lemma {:induction false} RollbackEachRecovers(s: State, ids: seq<string>, k: nat, faults: seq<RollbackFaults>)
    requires Inv(s) && k <= |ids| && Listed(s, ids, k)
    requires RollbackEach(s, ids, k, faults).result.Ok?
    ensures var t := RollbackEach(s, ids, k, faults).state;
            && RecordsRecovered(s, t, ids, k)
            && NetRecovered(s, t, ids, k)
            && (k < |ids| ==> t.file == t.pending)
    decreases |ids| - k
  {
    if k < |ids| {
      var t := RollbackInternal(s, ids[k], FaultsAt(faults, k)).state;
      var u := RollbackEach(s, ids, k, faults).state;
      assert Inv(t) by { RollbackKeeps(s, ids[k], FaultsAt(faults, k)); }
      RollbackRestores(s, ids[k], FaultsAt(faults, k));
      ListedStep(s, t, ids, k);
      RollbackEachRecovers(t, ids, k + 1, faults);
      RecordsStep(s, t, u, ids, k);
      NetStep(s, t, u, ids, k);
    }
  }

  lemma {:induction false} ExpiredIdsDistinct(rs: seq<Record>, now: nat)
    requires UniqueIds(rs)
    ensures forall a, b :: 0 <= a < b < |ExpiredIds(rs, now)| ==> ExpiredIds(rs, now)[a] != ExpiredIds(rs, now)[b]
  {
    if rs != [] {
      assert forall i :: 0 <= i < |rs[1..]| ==> rs[1..][i] == rs[i + 1];
      ExpiredIdsDistinct(rs[1..], now);
      assert rs[0].operationId !in ExpiredIds(rs[1..], now);
    }
  }

  lemma ExpiredIdsListed(s: State, now: nat)
    requires Inv(s)
    ensures Listed(s, ExpiredIds(s.pending, now), 0)
    ensures forall i :: 0 <= i < |s.pending| ==>
      (From(s.pending[i].operationId, ExpiredIds(s.pending, now), 0) <==> Expired(s.pending[i], now))
  {
    var ids := ExpiredIds(s.pending, now);
    ExpiredIdsDistinct(s.pending, now);
    forall a | 0 <= a < |ids| ensures FindActive(s.pending, ids[a]) < |s.pending| {
      assert ids[a] in ids;
      var i :| 0 <= i < |s.pending| && Expired(s.pending[i], now) && s.pending[i].operationId == ids[a];
      FindUnique(s.pending, i);
    }
    forall i | 0 <= i < |s.pending|
      ensures From(s.pending[i].operationId, ids, 0) <==> Expired(s.pending[i], now)
    {
      if From(s.pending[i].operationId, ids, 0) {
        assert s.pending[i].operationId in ids;
        var id := s.pending[i].operationId;
        var j :| 0 <= j < |s.pending| && Expired(s.pending[j], now) && s.pending[j].operationId == id;
        assert i == j;
      }
      if Expired(s.pending[i], now) {
        assert s.pending[i].operationId in ids;
      }
    }
  }

  /** A recovery pass that reports success leaves no expired record, has put the interface of every
      expired operation back to that operation's snapshot, and changed nothing else. */
  lemma RecoveryRestores(s: State, now: nat, faults: seq<RollbackFaults>)
    requires Inv(s) && RecoverExpired(s, now, faults).result.Ok?
    ensures var o := RecoverExpired(s, now, faults);
            var t := o.state;
            && |t.pending| == |s.pending|
            && (forall i :: 0 <= i < |t.pending| ==> !Expired(t.pending[i], now))
            && (forall i :: 0 <= i < |s.pending| && !Expired(s.pending[i], now) ==> t.pending[i] == s.pending[i])
            && (forall i :: 0 <= i < |s.pending| && Expired(s.pending[i], now) ==>
                  && s.pending[i].operationId in o.result.value
                  && t.pending[i] == s.pending[i].(state := RolledBack)
                  && t.file == t.pending
                  && Names(s.pending[i], s.snapshots)
                  && s.pending[i].targetInterface in t.net
                  && t.net[s.pending[i].targetInterface] == s.snapshots[s.pending[i].snapshotId].content)
            && (forall interface :: !HasExpired(s, interface, now) ==> SameThere(s.net, t.net, interface))
  {
    var ids := ExpiredIds(s.pending, now);
    ExpiredIdsListed(s, now);
    RollbackEachRecovers(s, ids, 0, faults);
    forall interface | !HasExpired(s, interface, now) ensures !Concerned(s, interface, ids, 0) {}
  }

  /** An expired operation holds the interface. */
  ghost predicate HasExpired(s: State, interface: string, now: nat) {
    exists i :: 0 <= i < |s.pending| && Expired(s.pending[i], now) && s.pending[i].targetInterface == interface
  }

  ghost function ExpiredSet(rs: seq<Record>, now: nat): set<string> {
    set i | 0 <= i < |rs| && Expired(rs[i], now) :: rs[i].operationId
  }

  /** Records never become expired by being followed. */
  lemma ExpiredShrinks(a: seq<Record>, b: seq<Record>, now: nat)
    requires Extends(a, b) && |a| == |b|
    ensures ExpiredSet(b, now) <= ExpiredSet(a, now)
  {
    forall i | 0 <= i < |b| && Expired(b[i], now) ensures b[i].operationId in ExpiredSet(a, now) {
      assert Follows(a[i], b[i]);
      assert Expired(a[i], now);
    }
  }

  lemma RollbackSameLength(s: State, id: string, faults: RollbackFaults)
    ensures |RollbackInternal(s, id, faults).state.pending| == |s.pending|
  {}

  lemma {:induction false} RollbackEachSameLength(s: State, ids: seq<string>, k: nat, faults: seq<RollbackFaults>)
    requires k <= |ids|
    ensures |RollbackEach(s, ids, k, faults).state.pending| == |s.pending|
    decreases |ids| - k
  {
    if k < |ids| {
      RollbackSameLength(s, ids[k], FaultsAt(faults, k));
      RollbackEachSameLength(RollbackInternal(s, ids[k], FaultsAt(faults, k)).state, ids, k + 1, faults);
    }
  }

  /** While storage works, a pass that finds expired records leaves strictly fewer of them, even if a
      restore fails and even if the audit log cannot be written. */
  lemma RecoveryProgress(s: State, now: nat, faults: seq<RollbackFaults>)
    requires Inv(s) && ExpiredIds(s.pending, now) != [] && StorageWorks(FaultsAt(faults, 0))
    ensures ExpiredSet(RecoverExpired(s, now, faults).state.pending, now) < ExpiredSet(s.pending, now)
  {
    var ids := ExpiredIds(s.pending, now);
    ExpiredIdsListed(s, now);
    var o := RollbackInternal(s, ids[0], FaultsAt(faults, 0));
    RollbackFinishes(s, ids[0], FaultsAt(faults, 0));
    RollbackKeeps(s, ids[0], FaultsAt(faults, 0));
    ExpiredShrinks(s.pending, o.state.pending, now);
    var n := FindActive(s.pending, ids[0]);
    assert ids[0] in ids;
    assert Expired(s.pending[n], now) && s.pending[n].operationId in ExpiredSet(s.pending, now) by {
      assert From(s.pending[n].operationId, ids, 0);
    }
    assert ids[0] !in ExpiredSet(o.state.pending, now) by {
      assert forall i :: 0 <= i < |s.pending| && i != n ==> s.pending[i].operationId != ids[0];
    }
    if o.result.Ok? {
      RollbackEachKeeps(o.state, ids, 1, faults);
      RollbackEachSameLength(o.state, ids, 1, faults);
      ExpiredShrinks(o.state.pending, RollbackEach(o.state, ids, 1, faults).state.pending, now);
    }
  }

  lemma RollbackSucceeds(s: State, id: string)
    requires Inv(s) && FindActive(s.pending, id) < |s.pending|
    ensures RollbackInternal(s, id, NoWriteFaults).result.Ok?
  {
    var n := FindActive(s.pending, id);
    assert Names(s.pending[n], s.snapshots);
    FindUnique(s.pending, n);
    var o := ReplaceRecord(s, s.pending[n].(state := RollingBack), Written);
    assert UniqueIds(o.state.pending);
    FindUnique(o.state.pending, n);
  }

  lemma {:induction false} RollbackEachSucceeds(s: State, ids: seq<string>, k: nat)
    requires Inv(s) && k <= |ids| && Listed(s, ids, k)
    ensures RollbackEach(s, ids, k, []).result.Ok?
    decreases |ids| - k
  {
    if k < |ids| {
      var t := RollbackInternal(s, ids[k], NoWriteFaults).state;
      RollbackSucceeds(s, ids[k]);
      assert Inv(t) by { RollbackKeeps(s, ids[k], NoWriteFaults); }
      RollbackRestores(s, ids[k], NoWriteFaults);
      ListedStep(s, t, ids, k);
      RollbackEachSucceeds(t, ids, k + 1);
    }
  }

  function WatchdogRestart(now: nat): seq<Step> {
    [Stop, Open(true), RecoverStep(now, [])]
  }

  lemma WatchdogRun(w: World, now: nat)
    ensures Run(w, WatchdogRestart(now)) == Next(Running(Halt(w.s).s), RecoverStep(now, []))
  {
    var watch := [RecoverStep(now, [])];
    assert WatchdogRestart(now)[1..] == [Open(true)] + watch;
    assert ([Open(true)] + watch)[1..] == watch && watch[1..] == [];
    var v := Running(Halt(w.s).s);
    assert Next(Next(w, Stop), Open(true)) == v;
    assert Run(v, watch) == Run(Next(v, watch[0]), []);
  }

  lemma WatchdogUndoes(s: State, k: nat, i: nat, now: nat)
    requires Inv(s) && s.pending == s.file
    requires k < |s.calls| && s.calls[k].Apply?
    requires i < |s.file| && s.file[i].operationId == s.calls[k].operationId && Expired(s.file[i], now)
    ensures var o := RecoverExpired(s, now, []);
            && o.result.Ok?
            && i < |o.state.file| && o.state.file[i] == s.file[i].(state := RolledBack)
            && s.calls[k].target in o.state.net && o.state.net[s.calls[k].target] == s.calls[k].before
  {
    ExpiredIdsListed(s, now);
    RollbackEachSucceeds(s, ExpiredIds(s.pending, now), 0);
    RecoveryRestores(s, now, []);
    assert WrittenAhead(s.calls[k], s.file, s.snapshots);
    var j :| 0 <= j < |s.file| && Recorded(s.calls[k], s.file[j], s.snapshots);
    assert i == j;
  }

  /** End to end: however a run went and wherever the process died, if the file says an applied
      operation is unfinished, then restarting and running the watchdog past its deadline gives the
      interface back exactly what it carried when the operation was applied. */
  lemma RestartUndoesUnconfirmed(net: map<string, NetState>, steps: seq<Step>, k: nat, i: nat, now: nat)
    requires var s := Run(Fresh(net), steps).s;
             && k < |s.calls| && s.calls[k].Apply?
             && i < |s.file| && s.file[i].operationId == s.calls[k].operationId
             && Expired(s.file[i], now)
    ensures var w := Run(Fresh(net), steps);
            var v := Run(w, WatchdogRestart(now));
            && v.Running?
            && i < |v.s.file| && v.s.file[i] == w.s.file[i].(state := RolledBack)
            && w.s.calls[k].target in v.s.net && v.s.net[w.s.calls[k].target] == w.s.calls[k].before
  {
    var w := Run(Fresh(net), steps);
    assert Inv(Halt(w.s).s) by {
      RunKeeps(Fresh(net), steps);
      HaltKeeps(w.s);
    }
    WatchdogRun(w, now);
    WatchdogUndoes(Halt(w.s).s, k, i, now);
  }

  // ---- What a confirmation confirms ----

  ghost predicate Carried(r: Record, net: map<string, NetState>) {
    r.targetInterface in net && r.newStateHash == Sha256(net[r.targetInterface])
  }

  /** If the operation's record is in the given state and confirming it is acknowledged, then the
      configuration it asked for is in force. */
  ghost predicate Vouches(s: State, state: ApplyState, id: string, now: nat, faults: ConfirmFaults) {
    var i := FindActive(s.pending, id);
    var o := Confirm(s, id, now, faults);
    i < |s.pending| && s.pending[i].state == state && o.result.Ok? ==> Carried(o.result.value, o.state.net)
  }

  ghost predicate ConfirmsWhatIsInForce(state: ApplyState) {
    forall net: map<string, NetState>, steps: seq<Step>, id: string, now: nat, faults: ConfirmFaults ::
      Untouched(steps) && Run(Fresh(net), steps).Running?
      ==> Vouches(Run(Fresh(net), steps).s, state, id, now, faults)
  }

  lemma PendingConfirmationIsInForce()
    ensures ConfirmsWhatIsInForce(PendingConfirmation)
  {
    forall net: map<string, NetState>, steps: seq<Step>, id: string, now: nat, faults: ConfirmFaults |
      Untouched(steps) && Run(Fresh(net), steps).Running?
      ensures Vouches(Run(Fresh(net), steps).s, PendingConfirmation, id, now, faults)
    {
      RunKeeps(Fresh(net), steps);
    }
  }

  /** A request the manager accepts, for a change the interface does not carry yet. */
  ghost predicate Sample(request: Request, net: map<string, NetState>) {
    && WellFormed(request)
    && request.interfaceId in net && net[request.interfaceId] != request.desired
    && request.now + request.confirmTimeout <= U64_MAX
  }

  function Idle(net: map<string, NetState>): State {
    State([], [], net, [], [])
  }

  lemma RunOne(net: map<string, NetState>, step: Step)
    ensures Run(Fresh(net), [Open(true), step]) == Next(Running(Idle(net)), step)
  {
    assert [Open(true), step][1..] == [step] && [step][1..] == [];
    assert Run(Running(Idle(net)), [step]) == Run(Next(Running(Idle(net)), step), []);
  }

  /** A manager opened on no file and given one request. */
  lemma RunBegin(net: map<string, NetState>, request: Request, faults: BeginFaults, s: State)
    returns (steps: seq<Step>)
    requires Settle(Begin(Idle(net), request, faults)) == Running(s)
    ensures Untouched(steps) && Run(Fresh(net), steps) == Running(s)
  {
    steps := [Open(true), BeginStep(request, faults)];
    RunOne(net, steps[1]);
  }

  lemma NotVouched(s: State, now: nat)
    requires |s.pending| == 1 && s.pending[0].Active() && now < s.pending[0].deadline && !Carried(s.pending[0], s.net)
    ensures !Vouches(s, s.pending[0].state, s.pending[0].operationId, now, ConfirmFaults(Written, Succeeds))
  {}

  /** One request is enough to reach a record that does not vouch for its interface. */
  lemma Refutes(request: Request, net: map<string, NetState>, faults: BeginFaults, s: State)
    requires Sample(request, net) && Settle(Begin(Idle(net), request, faults)) == Running(s)
    requires |s.pending| == 1 && s.net == net
    requires IsPending(s.pending[0].state)
    requires s.pending[0] == NewRecord(Idle(net), request, 0).(state := s.pending[0].state)
    ensures !ConfirmsWhatIsInForce(s.pending[0].state)
  {
    var steps := RunBegin(net, request, faults, s);
    NotVouched(s, request.now);
  }

  /** The record cannot be written. */
  function UnwrittenFaults(request: Request): BeginFaults {
    BeginFaults(SnapshotFault(Succeeds, true), WriteFailed(false), ChangeFault(Succeeds, request.desired),
                Succeeds, NoWriteFaults, Written, Succeeds)
  }

  /** The change is refused and the rollback cannot record its intent. */
  function RefusedFaults(request: Request, net: map<string, NetState>): BeginFaults
    requires request.interfaceId in net
  {
    var undo := RollbackFaults(WriteFailed(false), ChangeFault(Succeeds, ""), Written, Succeeds);
    BeginFaults(SnapshotFault(Succeeds, true), Written, ChangeFault(Fails, net[request.interfaceId]),
                Succeeds, undo, Written, Succeeds)
  }

  /** The file could not be written, so nothing was applied; the record stays confirmable. */
  lemma PreparedMayNotBeInForce(request: Request, net: map<string, NetState>)
    requires Sample(request, net)
    ensures !ConfirmsWhatIsInForce(Prepared)
  {
    var faults := UnwrittenFaults(request);
    var s := BeginUnrecorded(request, net, faults);
    Refutes(request, net, faults, s);
  }

  /** An accepted request whose record cannot be written changes memory only. */
  lemma BeginUnrecorded(request: Request, net: map<string, NetState>, faults: BeginFaults) returns (s: State)
    requires Sample(request, net) && faults.snapshot.verdict.Succeeds? && faults.prepared == WriteFailed(false)
    ensures s.net == net && s.pending == [NewRecord(Idle(net), request, 0)]
    ensures Begin(Idle(net), request, faults) == Outcome(s, Err(PersistenceFailed))
  {
    var record := NewRecord(Idle(net), request, 0);
    var taken := SnapshotCall(Idle(net), request.interfaceId, faults.snapshot).state;
    s := taken.(pending := [record]);
    assert taken.pending + [record] == [record];
  }

  /** A rollback that cannot record its intent leaves its record rolling back, in memory only. */
  lemma RollbackUnrecorded(s: State, record: Record, undo: RollbackFaults)
    requires s.pending == [record] && record.Active() && undo.rolling == WriteFailed(false)
    ensures RollbackInternal(s, record.operationId, undo)
              == Outcome(s.(pending := [record.(state := RollingBack)]), Err(PersistenceFailed))
  {
    assert FindActive(s.pending, record.operationId) == 0 && Find(s.pending, record.operationId) == 0;
    assert s.pending[0 := record.(state := RollingBack)] == [record.(state := RollingBack)];
  }

  /** An apply that fails and changes nothing, whose rollback cannot record its intent. */
  lemma ApplyRefused(s: State, request: Request, record: Record, faults: BeginFaults)
    requires request.interfaceId in s.net && s.pending == [record] && record.Active()
    requires record.operationId == request.operationId
    requires faults.apply == ChangeFault(Fails, s.net[request.interfaceId])
    requires faults.rollback.rolling == WriteFailed(false)
    ensures var o := ApplyRecorded(s, request, record, faults);
            && o.result == Err(RollbackFailed) && o.state.net == s.net
            && o.state.pending == [record.(state := RollingBack)]
  {
    var o1 := ApplyCall(s, request.operationId, request.interfaceId, faults.apply);
    assert s.net[request.interfaceId := s.net[request.interfaceId]] == s.net;
    RollbackUnrecorded(o1.state, record, faults.rollback);
  }

  /** An accepted request on an idle manager is recorded first. */
  lemma BeginRecords(request: Request, net: map<string, NetState>, faults: BeginFaults) returns (s: State)
    requires Sample(request, net) && faults.snapshot.verdict.Succeeds? && faults.prepared.Written?
    ensures var record := NewRecord(Idle(net), request, 0);
            && s.net == net && s.pending == [record]
            && Begin(Idle(net), request, faults) == ApplyRecorded(s, request, record, faults)
  {
    var record := NewRecord(Idle(net), request, 0);
    var taken := SnapshotCall(Idle(net), request.interfaceId, faults.snapshot).state;
    s := taken.(pending := [record], file := [record]);
    assert taken.pending + [record] == [record];
  }

  /** The change was refused and the rollback could not record its intent; the record stays
      confirmable. */
  lemma RollingBackMayNotBeInForce(request: Request, net: map<string, NetState>)
    requires Sample(request, net)
    ensures !ConfirmsWhatIsInForce(RollingBack)
  {
    var faults := RefusedFaults(request, net);
    var s := BeginRecords(request, net, faults);
    ApplyRefused(s, request, NewRecord(Idle(net), request, 0), faults);
    Refutes(request, net, faults, Begin(Idle(net), request, faults).state);
  }

  lemma Inked(c: char)
    requires '0' <= c <= 'z'
    ensures !Text.IsBlank([c])
  {
    Text.AsciiWhitespace(c);
    Text.TrimIs("", [c], "");
    assert "" + [c] + "" == [c];
  }

  lemma SampleExists() returns (request: Request, net: map<string, NetState>)
    ensures Sample(request, net)
  {
    request, net := Request("a", "e", "new", true, 10, 0), map["e" := "old"];
    Inked('a');
    Inked('e');
    assert "old"[0] != "new"[0];
  }

  /** Confirmation accepts any unfinished record, but vouches for the interface exactly when the
      record awaits confirmation. */
  lemma ConfirmVouchesIffAwaiting(state: ApplyState)
    requires IsPending(state)
    ensures ConfirmsWhatIsInForce(state) <==> state.PendingConfirmation?
  {
    PendingConfirmationIsInForce();
    var request, net := SampleExists();
    PreparedMayNotBeInForce(request, net);
    RollingBackMayNotBeInForce(request, net);
  }
}
