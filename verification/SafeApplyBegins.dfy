/** What an acknowledged `begin` says about its interface. */
module SafeApplyBegins {
  import opened SafeApply
  import opened SafeApplyRuns
  import opened SafeApplyTheorems

  /** If the operation is on record in the given state and beginning it again is acknowledged, then the
      configuration it asks for is in force. */
  ghost predicate BeginVouches(s: State, stored: ApplyState, request: Request, faults: BeginFaults) {
    var i := Find(s.pending, request.operationId);
    var o := Begin(s, request, faults);
    i < |s.pending| && s.pending[i].state == stored && o.result.Ok? ==> Carried(o.result.value, o.state.net)
  }

  ghost predicate RetryMeansInForce(stored: ApplyState) {
    forall net: map<string, NetState>, steps: seq<Step>, request: Request, faults: BeginFaults ::
      Untouched(steps) && Run(Fresh(net), steps).Running?
      ==> BeginVouches(Run(Fresh(net), steps).s, stored, request, faults)
  }

  // ---- The first call ----

  /** A record is acknowledged only after the interface was seen to carry what was asked. */
  lemma AppliedMeansCarried(s: State, request: Request, record: Record, faults: BeginFaults)
    requires request.interfaceId in s.net && ApplyRecorded(s, request, record, faults).result.Ok?
    ensures var o := ApplyRecorded(s, request, record, faults);
            && o.result.value == record.(state := PendingConfirmation)
            && request.interfaceId in o.state.net && o.state.net[request.interfaceId] == request.desired
  {}

  /** A first call that is acknowledged has put the requested configuration in force and awaits
      confirmation, in every state whatsoever. */
  lemma FirstBeginMeansInForce(s: State, request: Request, faults: BeginFaults)
    requires Find(s.pending, request.operationId) == |s.pending| && Begin(s, request, faults).result.Ok?
    ensures var o := Begin(s, request, faults);
            && o.result.value.state.PendingConfirmation? && o.result.value.operationId == request.operationId
            && o.result.value.targetInterface == request.interfaceId
            && o.result.value.newStateHash == Sha256(request.desired)
            && Carried(o.result.value, o.state.net)
  {
    var taken := SnapshotCall(s, request.interfaceId, faults.snapshot);
    var record := NewRecord(s, request, taken.result.value);
    var saved := Persist(taken.state.(pending := taken.state.pending + [record]), faults.prepared);
    AppliedMeansCarried(saved.state, request, record, faults);
  }

  // ---- A retry ----

  /** A retry of an operation that awaits confirmation is right about its interface. */
  lemma AwaitingRetryVouches(s: State, request: Request, faults: BeginFaults)
    requires Carrying(s)
    ensures BeginVouches(s, PendingConfirmation, request, faults)
  {}

  lemma AwaitingMeansInForce()
    ensures RetryMeansInForce(PendingConfirmation)
  {
    forall net: map<string, NetState>, steps: seq<Step>, request: Request, faults: BeginFaults |
      Untouched(steps) && Run(Fresh(net), steps).Running?
      ensures BeginVouches(Run(Fresh(net), steps).s, PendingConfirmation, request, faults)
    {
      RunKeeps(Fresh(net), steps);
      AwaitingRetryVouches(Run(Fresh(net), steps).s, request, faults);
    }
  }

  /** A finished operation is never begun again. */
  lemma FinishedIsRefused(s: State, stored: ApplyState, request: Request, faults: BeginFaults)
    requires !IsPending(stored)
    ensures BeginVouches(s, stored, request, faults)
  {}

  lemma FinishedMeansInForce(stored: ApplyState)
    requires !IsPending(stored)
    ensures RetryMeansInForce(stored)
  {
    forall net: map<string, NetState>, steps: seq<Step>, request: Request, faults: BeginFaults |
      Untouched(steps) && Run(Fresh(net), steps).Running?
      ensures BeginVouches(Run(Fresh(net), steps).s, stored, request, faults)
    {
      FinishedIsRefused(Run(Fresh(net), steps).s, stored, request, faults);
    }
  }

  lemma RetryNotVouched(s: State, request: Request, faults: BeginFaults)
    requires |s.pending| == 1 && s.pending[0].Active() && WellFormed(request)
    requires s.pending[0].operationId == request.operationId && s.pending[0].targetInterface == request.interfaceId
    requires s.pending[0].newStateHash == Sha256(request.desired) && !Carried(s.pending[0], s.net)
    ensures !BeginVouches(s, s.pending[0].state, request, faults)
  {
    assert Find(s.pending, request.operationId) == 0;
  }

  /** A request and its retry are enough to reach an acknowledgement that is wrong about its interface. */
  lemma RefutesRetry(request: Request, net: map<string, NetState>, faults: BeginFaults, s: State)
    requires Sample(request, net) && Settle(Begin(Idle(net), request, faults)) == Running(s)
    requires |s.pending| == 1 && s.net == net
    requires IsPending(s.pending[0].state)
    requires s.pending[0] == NewRecord(Idle(net), request, 0).(state := s.pending[0].state)
    ensures !RetryMeansInForce(s.pending[0].state)
  {
    var steps := RunBegin(net, request, faults, s);
    RetryNotVouched(s, request, faults);
  }

  /** The record was never written and the executor never called, yet the retry is acknowledged. */
  lemma PreparedRetryMisleads(request: Request, net: map<string, NetState>)
    requires Sample(request, net)
    ensures !RetryMeansInForce(Prepared)
  {
    var faults := UnwrittenFaults(request);
    var s := BeginUnrecorded(request, net, faults);
    RefutesRetry(request, net, faults, s);
  }

  /** The change was refused and its rollback is unfinished, yet the retry is acknowledged. */
  lemma RollingBackRetryMisleads(request: Request, net: map<string, NetState>)
    requires Sample(request, net)
    ensures !RetryMeansInForce(RollingBack)
  {
    var faults := RefusedFaults(request, net);
    var s := BeginRecords(request, net, faults);
    ApplyRefused(s, request, NewRecord(Idle(net), request, 0), faults);
    RefutesRetry(request, net, faults, Begin(Idle(net), request, faults).state);
  }

  /** A retry is acknowledged for every unfinished operation, but means that the configuration is in force
      exactly when the stored record awaits confirmation; for finished operations it is never acknowledged. */
  lemma RetryMeansInForceIff(stored: ApplyState)
    ensures RetryMeansInForce(stored) <==> stored.PendingConfirmation? || !IsPending(stored)
  {
    var request, net := SampleExists();
    match stored
    case Prepared => PreparedRetryMisleads(request, net);
    case RollingBack => RollingBackRetryMisleads(request, net);
    case PendingConfirmation => AwaitingMeansInForce();
    case Confirmed => FinishedMeansInForce(stored);
    case RolledBack => FinishedMeansInForce(stored);
    case Failed => FinishedMeansInForce(stored);
  }
}
