/** What borrowing a kernel resource promises, over any retried run of one operation. */
module ResourceTheorems {
  import opened Common
  import opened Resources

  function Fresh<K, V>(kernel: map<K, V>): World<K, V> {
    World(None, kernel, [])
  }

  // ---- The stored original ----

  /** Whatever failed and however often it was retried: nothing is done to the kernel before the snapshot
      is on file, the stored original is the value the first change found, and no other resource changes. */
  lemma OriginalIsKept<K(!new), V(!new)>(kernel: map<K, V>, steps: seq<Step<K, V>>)
    requires SoundRun(steps)
    ensures var w := Run(Fresh<K, V>(kernel), steps);
            && (w.file.None? ==> w.log == [] && forall k :: At(w.kernel, k) == At(kernel, k))
            && (w.file.Some? ==> FirstFound(w.log, w.file.value.original))
            && (w.file.Some? ==> forall i :: 0 <= i < |w.log| ==> w.log[i].key == w.file.value.key)
            && (w.file.Some? ==> forall k :: k != w.file.value.key ==> At(w.kernel, k) == At(kernel, k))
  {
    RunKeeps(Fresh<K, V>(kernel), steps);
  }

  /** The stored original is the value in the kernel before the run. */
  ghost predicate FromStart<K(!new), V>(kernel: map<K, V>, w: World<K, V>) {
    match w.file
    case None => forall k :: At(w.kernel, k) == At(kernel, k)
    case Some(s) => s.original == At(kernel, s.key)
  }

  lemma {:induction false} OriginalFromStart<K(!new), V(!new)>(
      kernel: map<K, V>, w: World<K, V>, steps: seq<Step<K, V>>)
    requires Inv(w) && FromStart(kernel, w) && SoundRun(steps)
    ensures FromStart(kernel, Run(w, steps))
    decreases |steps|
  {
    if steps != [] {
      NextKeeps(w, steps[0]);
      OriginalFromStart(kernel, Next(w, steps[0]).world, steps[1..]);
    }
  }

  // ---- Success ----

  /** A restore that reports success leaves the value the resource had at the start; a prepare that does
      leaves the target, with that value on file. */
  lemma SuccessMeansDone<K(!new), V(!new)>(kernel: map<K, V>, steps: seq<Step<K, V>>, last: Step<K, V>)
    requires SoundRun(steps) && SoundStep(last) && Next(Run(Fresh<K, V>(kernel), steps), last).result.Ok?
    ensures var o := Next(Run(Fresh<K, V>(kernel), steps), last);
            var s := o.result.value;
            && o.world.file == Some(s) && s.original == At(kernel, s.key)
            && At(o.world.kernel, s.key) == (if last.RestoreStep? then At(kernel, s.key) else last.target)
            && s.released == last.RestoreStep?
  {
    var w := Run(Fresh<K, V>(kernel), steps);
    RunKeeps(Fresh<K, V>(kernel), steps);
    OriginalFromStart(kernel, Fresh<K, V>(kernel), steps);
    NextKeeps(w, last);
    OriginalFromStart(kernel, w, [last]);
    match last
    case PrepareStep(key, target, valid, f, change) => PrepareDone(w, key, target, valid, f, change);
    case RestoreStep(named, valid, f, back) => RestoreKeeps(w, named, valid, f, back(Original(w)));
  }

  lemma PrepareDone<K(!new), V(!new)>(
      w: World<K, V>, key: K, target: Option<V>, valid: bool, f: PrepareFaults, change: Option<V> -> Act<V>)
    requires Inv(w) && Sound(change, target) && Prepare(w, key, target, valid, f, change).result.Ok?
    ensures var o := Prepare(w, key, target, valid, f, change);
            && o.world.file == Some(o.result.value) && !o.result.value.released && o.result.value.key == key
            && At(o.world.kernel, key) == target
  {
    if w.file.Some? {
      OccupyKeeps(w, w.file.value, f, change);
    } else {
      var snapshot := Snapshot(key, target, At(w.kernel, key), false);
      OccupyKeeps(Save(w, snapshot, f.first), snapshot, f, change);
    }
  }

  // ---- Reading back ----

  /** The call read the stored original from the kernel, after every change of the value. */
  ghost predicate ReadBackIn<K, V>(w: World<K, V>, u: World<K, V>) {
    w.file.Some? && |w.log| < |u.log| && LastRead(u.log, w.file.value.key, w.file.value.original)
  }

  /** A restore that succeeds has read the original back in that very call exactly when the snapshot on
      file was not yet released; otherwise it does nothing at all. */
  lemma RestoreReadsBackIff<K(!new), V(!new)>(
      w: World<K, V>, key: Option<K>, valid: bool, f: RestoreFaults, change: Option<V> -> Act<V>)
    requires Inv(w) && (w.file.Some? ==> Sound(change, w.file.value.original))
    requires Restore(w, key, valid, f, change).result.Ok?
    ensures var u := Restore(w, key, valid, f, change).world;
            && (ReadBackIn(w, u) <==> !w.file.value.released)
            && (w.file.value.released ==> u == w)
  {
    if !w.file.value.released {
      ChangeKeeps(w, w.file.value, change(At(w.kernel, w.file.value.key)));
    }
  }

  /** A prepare never releases. */
  lemma PrepareNeverReleases<K(!new), V(!new)>(w: World<K, V>, step: Step<K, V>)
    requires Inv(w) && SoundStep(step) && step.PrepareStep?
    ensures Released(Next(w, step).world) ==> Released(w)
  {
    var PrepareStep(key, target, valid, f, change) := step;
    if valid && w.file.None? && f.valueRead && f.first.Written? {
      var snapshot := Snapshot(key, target, At(w.kernel, key), false);
      OccupyKeeps(Save(w, snapshot, f.first), snapshot, f, change);
    }
  }

  /** The call that releases has read the original back, whether or not it could report so. */
  lemma ReleaseReadsBack<K(!new), V(!new)>(w: World<K, V>, step: Step<K, V>)
    requires Inv(w) && SoundStep(step) && !Released(w) && Released(Next(w, step).world)
    ensures step.RestoreStep? && ReadBackIn(w, Next(w, step).world)
  {
    if step.PrepareStep? {
      PrepareNeverReleases(w, step);
    } else {
      var snapshot := w.file.value;
      ChangeKeeps(w, snapshot, step.back(Original(w))(At(w.kernel, snapshot.key)));
    }
  }

  ghost predicate Released<K, V>(w: World<K, V>) {
    w.file.Some? && w.file.value.released
  }

  /** Over a whole run: when the operation has been released, one restore of the run read the original
      back, and nothing has been done to the file or to the kernel since. */
  lemma {:induction false} ReadBackOnce<K(!new), V(!new)>(w: World<K, V>, steps: seq<Step<K, V>>) returns (j: nat)
    requires Inv(w) && SoundRun(steps) && !Released(w) && Released(Run(w, steps))
    ensures j < |steps| && steps[j].RestoreStep?
    ensures var v := Run(w, steps[..j]);
            && !Released(v) && ReadBackIn(v, Next(v, steps[j]).world) && Next(v, steps[j]).world == Run(w, steps)
    decreases |steps|
  {
    var u := Next(w, steps[0]).world;
    NextKeeps(w, steps[0]);
    if Released(u) {
      j := 0;
      ReleaseReadsBack(w, steps[0]);
      RunKeeps(u, steps[1..]);
      assert steps[..0] == [];
    } else {
      var i := ReadBackOnce(u, steps[1..]);
      j := i + 1;
      assert steps[..j][0] == steps[0] && steps[..j][1..] == steps[1..][..i];
    }
  }

  /** A restore that succeeds, in any run: it read the original back itself, or an earlier restore of the
      run did and nothing has happened since. */
  lemma SuccessWasReadBack<K(!new), V(!new)>(
      kernel: map<K, V>, steps: seq<Step<K, V>>, last: Step<K, V>)
    returns (j: nat)
    requires SoundRun(steps) && SoundStep(last) && last.RestoreStep?
    requires Next(Run(Fresh<K, V>(kernel), steps), last).result.Ok?
    ensures var w := Run(Fresh<K, V>(kernel), steps);
            if !Released(w) then ReadBackIn(w, Next(w, last).world)
            else
              && j < |steps| && steps[j].RestoreStep? && Next(w, last).world == w
              && var v := Run(Fresh<K, V>(kernel), steps[..j]);
                 !Released(v) && ReadBackIn(v, Next(v, steps[j]).world) && Next(v, steps[j]).world == w
  {
    var w := Run(Fresh<K, V>(kernel), steps);
    RunKeeps(Fresh<K, V>(kernel), steps);
    RestoreReadsBackIff(w, last.named, last.valid, last.restoreFaults, last.back(Original(w)));
    j := 0;
    if Released(w) {
      j := ReadBackOnce(Fresh<K, V>(kernel), steps);
    }
  }

  /** The kernel does what it is asked. */
  function Obeys<V>(target: Option<V>): Act<V> {
    Act(true, target, Some(target), true)
  }

  function ObeyingRestore<K, V>(last: Write): Step<K, V> {
    RestoreStep(None, true, RestoreFaults(true, true, last), target => v => Obeys(target))
  }

  /** Prepared, then restored by a call whose last write replaced the file and yet failed. */
  function Unreported<K, V>(key: K, target: Option<V>): seq<Step<K, V>> {
    [PrepareStep(key, target, true, PrepareFaults(true, true, Written, Written), v => Obeys(target)),
     ObeyingRestore(WriteFailed(true))]
  }

  /** The first call restored and read back but reported an error; its retry reports success and does not
      look at the kernel. */
  lemma RetryReadsNothing<K(!new), V(!new)>(kernel: map<K, V>, key: K, target: Option<V>)
    ensures var w := Run(Fresh<K, V>(kernel), Unreported(key, target));
            var o := Next(w, ObeyingRestore(Written));
            && SoundRun(Unreported(key, target)) && Released(w) && At(w.kernel, key) == At(kernel, key)
            && o.result.Ok? && o.world == w && !ReadBackIn(w, o.world)
    ensures Next(Run(Fresh<K, V>(kernel), [Unreported(key, target)[0]]), Unreported(key, target)[1]).result.Err?
  {
    var steps := Unreported(key, target);
    assert steps[1..] == [steps[1]] && [steps[1]][1..] == [] && [steps[0]][1..] == [];
    var prepared := Next(Fresh<K, V>(kernel), steps[0]).world;
    assert Run(Fresh<K, V>(kernel), steps) == Run(prepared, [steps[1]]) == Run(Next(prepared, steps[1]).world, []);
    assert Run(Fresh<K, V>(kernel), [steps[0]]) == Run(prepared, []) == prepared;
  }

  // ---- After release ----

  /** Once a restore has succeeded, every later call leaves file and kernel alone, and every prepare is
      refused. */
  lemma ReleaseIsFinal<K(!new), V(!new)>(
      kernel: map<K, V>, steps: seq<Step<K, V>>, restore: Step<K, V>, after: seq<Step<K, V>>, last: Step<K, V>)
    requires SoundRun(steps) && SoundStep(restore) && SoundRun(after) && SoundStep(last)
    requires restore.RestoreStep? && Next(Run(Fresh<K, V>(kernel), steps), restore).result.Ok?
    ensures var w := Next(Run(Fresh<K, V>(kernel), steps), restore).world;
            && Run(w, after) == w && Next(w, last).world == w
            && (last.PrepareStep? ==> Next(w, last).result.Err?)
            && At(w.kernel, w.file.value.key) == At(kernel, w.file.value.key)
  {
    var w := Next(Run(Fresh<K, V>(kernel), steps), restore).world;
    SuccessMeansDone(kernel, steps, restore);
    RunKeeps(Fresh<K, V>(kernel), steps);
    NextKeeps(Run(Fresh<K, V>(kernel), steps), restore);
    RunKeeps(w, after);
    NextKeeps(w, last);
  }

  /** As long as the file can be read, a restore to which the kernel answers always gets back to the start. */
  lemma RestoreIsPossible<K(!new), V(!new)>(kernel: map<K, V>, steps: seq<Step<K, V>>, back: Back<V>)
    requires SoundRun(steps) && Run(Fresh<K, V>(kernel), steps).file.Some?
    requires forall target, v ::
               back(target)(v).ok && back(target)(v).read == Some(target) && back(target)(v).after == target
               && (!back(target)(v).touched ==> target == v)
    ensures var w := Run(Fresh<K, V>(kernel), steps);
            var o := Next(w, RestoreStep(None, true, RestoreFaults(true, true, Written), back));
            && o.result.Ok? && At(o.world.kernel, w.file.value.key) == At(kernel, w.file.value.key)
  {
    var step := RestoreStep(None, true, RestoreFaults(true, true, Written), back);
    SuccessMeansDone(kernel, steps, step);
  }
}
