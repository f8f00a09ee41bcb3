/** Borrowing a kernel resource and giving it back: the driver of a network card, or a pool of huge
    pages.  Both keep a snapshot file per operation and share one protocol; they differ in how the
    kernel value is changed. */
module Resources {
  import opened Common

  datatype Error = InvalidArgument | InvalidState | OperationConflict | PersistenceFailed | ExecutionFailed

  datatype Result<T> = Ok(value: T) | Err(error: Error)

  const DPDK_DRIVER := "vfio-pci"

  /** K names a resource and V is its value; no value is an unbound card or a missing pool. */
  datatype Snapshot<K, V> = Snapshot(key: K, target: Option<V>, original: Option<V>, released: bool)

  /** A change made to a resource, with the value it had before, or a value read back after every change of
      it in its call. */
  datatype Event<K, V> = Touch(key: K, before: Option<V>) | Read(key: K, value: Option<V>)

  /** All that outlives a call: the snapshot file of one operation and the kernel. `log` records what
      was done to the kernel. */
  datatype World<K, V> = World(file: Option<Snapshot<K, V>>, kernel: map<K, V>, log: seq<Event<K, V>>)

  function At<K, V>(kernel: map<K, V>, key: K): Option<V> {
    if key in kernel then Some(kernel[key]) else None
  }

  function Put<K, V>(kernel: map<K, V>, key: K, value: Option<V>): (r: map<K, V>)
    ensures At(r, key) == value
  {
    if value.Some? then kernel[key := value.value] else kernel - {key}
  }

  // ---- Changing the kernel ----

  /** What an attempt to change a resource left behind, and the value it read last if it got that far. */
  datatype Act<V> = Act(touched: bool, after: Option<V>, read: Option<Option<V>>, ok: bool)

  /** A kernel write that may fail; the kernel decides what the value is afterwards. */
  datatype KernelWrite<V> = KernelWrite(succeeds: bool, after: Option<V>)

  datatype BindFaults = BindFaults(
    firstRead: bool, overrides: bool, unbind: KernelWrite<string>, probe: KernelWrite<string>, lastRead: bool)

  /** `bind_driver`; the override alone binds nothing. */
  function BindDriver(current: Option<string>, target: Option<string>, f: BindFaults): Act<string> {
    if !f.firstRead then Act(false, current, None, false)
    else if current == target then Act(false, current, Some(current), true)
    else if !f.overrides then Act(true, current, None, false)
    else if current.Some? && !f.unbind.succeeds then Act(true, f.unbind.after, None, false)
    else
      var unbound := if current.Some? then f.unbind.after else current;
      if target.Some? && !f.probe.succeeds then Act(true, f.probe.after, None, false)
      else
        var bound := if target.Some? then f.probe.after else unbound;
        if !f.lastRead then Act(true, bound, None, false) else Act(true, bound, Some(bound), bound == target)
  }

  datatype CountFaults = CountFaults(write: KernelWrite<nat>, lastRead: bool)

  /** `write_count`; a pool that is gone cannot be read. */
  function WriteCount(target: Option<nat>, f: CountFaults): Act<nat> {
    var after := f.write.after;
    if !f.write.succeeds || !f.lastRead || after.None? then Act(true, after, None, false)
    else Act(true, after, Some(after), after == target)
  }

  /** What the protocol relies on: success means that the target was read back, what is read is there,
      and a value that was not touched has not changed. */
  ghost predicate Sound<V(!new)>(change: Option<V> -> Act<V>, target: Option<V>) {
    forall v ::
      && (change(v).ok ==> change(v).read == Some(target))
      && (change(v).read.Some? ==> change(v).read.value == change(v).after)
      && (!change(v).touched ==> change(v).after == v)
  }

  // ---- The protocol ----

  /** A state file write that failed may still have replaced the file. */
  datatype Write = Written | WriteFailed(published: bool)

  datatype Outcome<K, V> = Outcome(world: World<K, V>, result: Result<Snapshot<K, V>>)

  function Save<K, V>(w: World<K, V>, snapshot: Snapshot<K, V>, write: Write): World<K, V> {
    if write == WriteFailed(false) then w else w.(file := Some(snapshot))
  }

  function EventsOf<K, V>(key: K, before: Option<V>, act: Act<V>): seq<Event<K, V>> {
    (if act.touched then [Touch(key, before)] else []) + (if act.read.Some? then [Read(key, act.read.value)] else [])
  }

  function Change<K(==), V>(w: World<K, V>, key: K, act: Act<V>): World<K, V> {
    w.(kernel := Put(w.kernel, key, act.after), log := w.log + EventsOf(key, At(w.kernel, key), act))
  }

  /** Faults of a prepare: reading the snapshot file, reading the current value, the two file writes. */
  datatype PrepareFaults = PrepareFaults(fileRead: bool, valueRead: bool, first: Write, last: Write)

  /** `prepare_dpdk` and `prepare_hugepages`, for arguments that are valid or not. */
  function Prepare<K(==), V(==)>(
      w: World<K, V>, key: K, target: Option<V>, valid: bool, f: PrepareFaults,
      change: Option<V> -> Act<V>): Outcome<K, V>
  {
    if !valid then Outcome(w, Err(InvalidArgument))
    else if w.file.Some? then
      if !f.fileRead then Outcome(w, Err(PersistenceFailed))
      else if w.file.value.key != key || w.file.value.target != target then Outcome(w, Err(OperationConflict))
      else Occupy(w, w.file.value, f, change)
    else if !f.valueRead then Outcome(w, Err(ExecutionFailed))
    else
      var snapshot := Snapshot(key, target, At(w.kernel, key), false);
      var saved := Save(w, snapshot, f.first);
      if !f.first.Written? then Outcome(saved, Err(PersistenceFailed)) else Occupy(saved, snapshot, f, change)
  }

  /** The part of a prepare after its snapshot is on file. */
  function Occupy<K(==), V>(
      w: World<K, V>, snapshot: Snapshot<K, V>, f: PrepareFaults, change: Option<V> -> Act<V>): Outcome<K, V>
  {
    if snapshot.released then Outcome(w, Err(InvalidState))
    else
      var act := change(At(w.kernel, snapshot.key));
      var changed := Change(w, snapshot.key, act);
      if !act.ok then Outcome(changed, Err(ExecutionFailed))
      else
        Outcome(Save(changed, snapshot, f.last), if f.last.Written? then Ok(snapshot) else Err(PersistenceFailed))
  }

  /** Faults of a restore: reading the snapshot file, clearing the override, the file write. */
  datatype RestoreFaults = RestoreFaults(fileRead: bool, clear: bool, last: Write)

  /** `restore_driver`, which names its card, and `release_hugepages`, which does not. */
  function Restore<K(==), V>(
      w: World<K, V>, key: Option<K>, valid: bool, f: RestoreFaults, change: Option<V> -> Act<V>): Outcome<K, V>
  {
    if !valid then Outcome(w, Err(InvalidArgument))
    else if !f.fileRead || w.file.None? then Outcome(w, Err(PersistenceFailed))
    else
      var snapshot := w.file.value;
      if key.Some? && key.value != snapshot.key then Outcome(w, Err(OperationConflict))
      else if snapshot.released then Outcome(w, Ok(snapshot))
      else
        var act := change(At(w.kernel, snapshot.key));
        var changed := Change(w, snapshot.key, act);
        if !act.ok || !f.clear then Outcome(changed, Err(ExecutionFailed))
        else
          var done := snapshot.(released := true);
          Outcome(Save(changed, done, f.last), if f.last.Written? then Ok(done) else Err(PersistenceFailed))
  }

  // ---- Runs of one operation ----

  /** A call with its faults and with the kernel's behaviour during it. */
  datatype Step<!K, !V> =
    | PrepareStep(key: K, target: Option<V>, valid: bool, prepareFaults: PrepareFaults, change: Option<V> -> Act<V>)
    | RestoreStep(named: Option<K>, valid: bool, restoreFaults: RestoreFaults, back: Back<V>)

  /** How the kernel answers a change to each target. */
  type Back<!V> = Option<V> -> Option<V> -> Act<V>

  /** A restore changes to whatever its snapshot says. */
  function Next<K(==), V(==)>(w: World<K, V>, step: Step<K, V>): Outcome<K, V> {
    match step
    case PrepareStep(key, target, valid, f, change) => Prepare(w, key, target, valid, f, change)
    case RestoreStep(named, valid, f, back) => Restore(w, named, valid, f, back(Original(w)))
  }

  function Original<K, V>(w: World<K, V>): Option<V> {
    if w.file.Some? then w.file.value.original else None
  }

  function Run<K(==), V(==)>(w: World<K, V>, steps: seq<Step<K, V>>): World<K, V>
    decreases |steps|
  {
    if steps == [] then w else Run(Next(w, steps[0]).world, steps[1..])
  }

  ghost predicate SoundStep<K(!new), V(!new)>(step: Step<K, V>) {
    match step
    case PrepareStep(_, target, _, _, change) => Sound(change, target)
    case RestoreStep(_, _, _, back) => forall target :: Sound(back(target), target)
  }

  ghost predicate SoundRun<K(!new), V(!new)>(steps: seq<Step<K, V>>) {
    forall i :: 0 <= i < |steps| ==> SoundStep(steps[i])
  }

  lemma BindIsSound(target: Option<string>, f: BindFaults)
    ensures Sound(v => BindDriver(v, target, f), target)
  {}

  lemma CountIsSound(target: Option<nat>, f: CountFaults)
    ensures Sound(v => WriteCount(target, f), target)
  {}

  // ---- What every call keeps ----

  ghost predicate Untouched<K, V>(log: seq<Event<K, V>>) {
    forall i :: 0 <= i < |log| ==> !log[i].Touch?
  }

  /** The first change found this value. */
  ghost predicate FirstFound<K, V>(log: seq<Event<K, V>>, original: Option<V>) {
    forall i :: 0 <= i < |log| && log[i].Touch? && Untouched(log[..i]) ==> log[i].before == original
  }

  /** The last thing done to the kernel was to read this value. */
  ghost predicate LastRead<K, V>(log: seq<Event<K, V>>, key: K, value: Option<V>) {
    log != [] && log[|log| - 1] == Read(key, value)
  }

  /** The snapshot holds the value from before the first change; a released resource has it back, and it
      was read after the last change. */
  ghost predicate Inv<K, V>(w: World<K, V>) {
    match w.file
    case None => w.log == []
    case Some(s) =>
      && (Untouched(w.log) ==> At(w.kernel, s.key) == s.original)
      && FirstFound(w.log, s.original)
      && (forall i :: 0 <= i < |w.log| ==> w.log[i].key == s.key)
      && (s.released ==> At(w.kernel, s.key) == s.original && LastRead(w.log, s.key, s.original))
  }

  /** The snapshot is written once: only its release is ever added to it. */
  ghost predicate Later<K(!new), V>(w: World<K, V>, u: World<K, V>) {
    && w.log <= u.log
    && (w.file.Some? ==> u.file.Some? && u.file.value == w.file.value.(released := u.file.value.released))
    && (w.file.Some? && w.file.value.released ==> u == w)
    && (forall k :: (u.file.Some? ==> k != u.file.value.key) ==> At(u.kernel, k) == At(w.kernel, k))
  }

  lemma TouchedStays<K, V>(log: seq<Event<K, V>>, more: seq<Event<K, V>>)
    ensures Untouched(log + more) <==> Untouched(log) && Untouched(more)
  {
    assert forall i :: 0 <= i < |log| ==> (log + more)[i] == log[i];
    assert forall i :: 0 <= i < |more| ==> (log + more)[|log| + i] == more[i];
  }

  /** More events keep what the first change found, unless they hold the first change. */
  lemma FirstFoundStays<K, V>(log: seq<Event<K, V>>, more: seq<Event<K, V>>, original: Option<V>)
    requires FirstFound(log, original) && (Untouched(log) ==> FirstFound(more, original))
    ensures FirstFound(log + more, original)
  {
    var all := log + more;
    forall i | 0 <= i < |all| && all[i].Touch? && Untouched(all[..i]) ensures all[i].before == original {
      if i < |log| {
        assert all[..i] == log[..i];
      } else {
        assert all[..i] == log + more[..i - |log|];
        TouchedStays(log, more[..i - |log|]);
      }
    }
  }

  lemma EventsFound<K, V>(key: K, before: Option<V>, act: Act<V>)
    ensures FirstFound(EventsOf(key, before, act), before)
    ensures Untouched(EventsOf(key, before, act)) <==> !act.touched
    ensures act.read.Some? ==> LastRead(EventsOf(key, before, act), key, act.read.value)
  {
    var events := EventsOf(key, before, act);
    assert act.touched ==> events[0] == Touch(key, before);
  }

  lemma ChangeKeeps<K(!new), V>(w: World<K, V>, snapshot: Snapshot<K, V>, act: Act<V>)
    requires Inv(w) && w.file == Some(snapshot) && !snapshot.released
    requires !act.touched ==> act.after == At(w.kernel, snapshot.key)
    ensures Inv(Change(w, snapshot.key, act)) && Later(w, Change(w, snapshot.key, act))
    ensures act.read.Some? ==> LastRead(Change(w, snapshot.key, act).log, snapshot.key, act.read.value)
  {
    var before := At(w.kernel, snapshot.key);
    var events := EventsOf(snapshot.key, before, act);
    EventsFound(snapshot.key, before, act);
    TouchedStays(w.log, events);
    FirstFoundStays(w.log, events, snapshot.original);
  }

  lemma OccupyKeeps<K(!new), V(!new)>(
      w: World<K, V>, snapshot: Snapshot<K, V>, f: PrepareFaults, change: Option<V> -> Act<V>)
    requires Inv(w) && w.file == Some(snapshot) && Sound(change, snapshot.target)
    ensures var o := Occupy(w, snapshot, f, change);
            && Inv(o.world) && Later(w, o.world)
            && (o.result.Ok? ==>
                  && At(o.world.kernel, snapshot.key) == snapshot.target
                  && o.world.file == Some(snapshot) && !snapshot.released)
  {
    if !snapshot.released {
      ChangeKeeps(w, snapshot, change(At(w.kernel, snapshot.key)));
    }
  }

  lemma PrepareKeeps<K(!new), V(!new)>(
      w: World<K, V>, key: K, target: Option<V>, valid: bool, f: PrepareFaults, change: Option<V> -> Act<V>)
    requires Inv(w) && Sound(change, target)
    ensures var o := Prepare(w, key, target, valid, f, change); Inv(o.world) && Later(w, o.world)
  {
    if valid && w.file.Some? && f.fileRead && w.file.value.key == key && w.file.value.target == target {
      OccupyKeeps(w, w.file.value, f, change);
    } else if valid && w.file.None? && f.valueRead {
      var snapshot := Snapshot(key, target, At(w.kernel, key), false);
      var saved := Save(w, snapshot, f.first);
      if f.first.Written? {
        OccupyKeeps(saved, snapshot, f, change);
      }
    }
  }

  lemma RestoreKeeps<K(!new), V(!new)>(
      w: World<K, V>, key: Option<K>, valid: bool, f: RestoreFaults, change: Option<V> -> Act<V>)
    requires Inv(w) && (w.file.Some? ==> Sound(change, w.file.value.original))
    ensures var o := Restore(w, key, valid, f, change);
            && Inv(o.world) && Later(w, o.world)
            && (o.result.Ok? ==> o.world.file == Some(o.result.value) && o.result.value.released)
  {
    if w.file.Some? && !w.file.value.released {
      ChangeKeeps(w, w.file.value, change(At(w.kernel, w.file.value.key)));
    }
  }

  lemma NextKeeps<K(!new), V(!new)>(w: World<K, V>, step: Step<K, V>)
    requires Inv(w) && SoundStep(step)
    ensures Inv(Next(w, step).world) && Later(w, Next(w, step).world)
  {
    match step
    case PrepareStep(key, target, valid, f, change) => PrepareKeeps(w, key, target, valid, f, change);
    case RestoreStep(named, valid, f, back) => RestoreKeeps(w, named, valid, f, back(Original(w)));
  }

  lemma LaterTrans<K(!new), V>(w: World<K, V>, u: World<K, V>, x: World<K, V>)
    requires Later(w, u) && Later(u, x)
    ensures Later(w, x)
  {}

  lemma {:induction false} RunKeeps<K(!new), V(!new)>(w: World<K, V>, steps: seq<Step<K, V>>)
    requires Inv(w) && SoundRun(steps)
    ensures Inv(Run(w, steps)) && Later(w, Run(w, steps))
    decreases |steps|
  {
    if steps != [] {
      var u := Next(w, steps[0]).world;
      NextKeeps(w, steps[0]);
      RunKeeps(u, steps[1..]);
      LaterTrans(w, u, Run(u, steps[1..]));
    }
  }
}
