/** The executor that follows the protocol: one operation's snapshot file and the kernel it changes. */
module ResourceExecutor {
  import opened Common
  import opened Resources

  predicate IsHexDigit(c: char) {
    '0' <= c <= '9' || 'a' <= c <= 'f' || 'A' <= c <= 'F'
  }

  /** dddd:bb:ss.f */
  predicate ValidPciAddress(pci: string) {
    && |pci| == 12 && pci[4] == ':' && pci[7] == ':' && pci[10] == '.'
    && forall i :: 0 <= i < 12 ==> i == 4 || i == 7 || i == 10 || IsHexDigit(pci[i])
  }

  predicate ValidHugepages(pages: nat, pageSizeKib: nat) {
    pages != 0 && pageSizeKib != 0 && pages * pageSizeKib <= 1_073_741_824
  }

  /** The driver of a network card. */
  class NicExecutor {
    var file: Option<Snapshot<string, string>>
    var drivers: map<string, string>
    ghost var log: seq<Event<string, string>>

    ghost function State(): World<string, string>
      reads this
    {
      World(file, drivers, log)
    }

    method WriteState(snapshot: Snapshot<string, string>, write: Write) returns (ok: bool)
      modifies this`file
      ensures State() == Save(old(State()), snapshot, write) && ok == write.Written?
    {
      if write != WriteFailed(false) {
        file := Some(snapshot);
      }
      ok := write.Written?;
    }

    method BindDriver(pci: string, target: Option<string>, f: BindFaults) returns (ok: bool)
      modifies this`drivers, this`log
      ensures var act := Resources.BindDriver(old(At(drivers, pci)), target, f);
              State() == Change(old(State()), pci, act) && ok == act.ok
    {
      ghost var w := State();
      var current := At(drivers, pci);
      assert Put(drivers, pci, current) == drivers;
      if !f.firstRead {
        assert log + [] == log;
        return false;
      }
      if current == target {
        log := log + [Read(pci, current)];
        return true;
      }
      log := log + [Touch(pci, current)];
      if !f.overrides {
        return false;
      }
      if current.Some? {
        drivers := Put(drivers, pci, f.unbind.after);
        if !f.unbind.succeeds {
          return false;
        }
      }
      if target.Some? {
        PutTwice(w.kernel, pci, f.unbind.after, f.probe.after);
        drivers := Put(drivers, pci, f.probe.after);
        if !f.probe.succeeds {
          return false;
        }
      }
      if !f.lastRead {
        return false;
      }
      log := log + [Read(pci, At(drivers, pci))];
      ok := At(drivers, pci) == target;
    }

    method PrepareDpdk(pci: string, f: PrepareFaults, b: BindFaults) returns (r: Result<Snapshot<string, string>>)
      modifies this
      ensures var change := (v: Option<string>) => Resources.BindDriver(v, Some(DPDK_DRIVER), b);
              var o := Prepare(old(State()), pci, Some(DPDK_DRIVER), ValidPciAddress(pci), f, change);
              State() == o.world && r == o.result
    {
      if !ValidPciAddress(pci) {
        return Err(InvalidArgument);
      }
      var snapshot;
      if file.Some? {
        if !f.fileRead {
          return Err(PersistenceFailed);
        }
        snapshot := file.value;
        if snapshot.key != pci || snapshot.target != Some(DPDK_DRIVER) {
          return Err(OperationConflict);
        }
      } else {
        if !f.valueRead {
          return Err(ExecutionFailed);
        }
        snapshot := Snapshot(pci, Some(DPDK_DRIVER), At(drivers, pci), false);
        var saved := WriteState(snapshot, f.first);
        if !saved {
          return Err(PersistenceFailed);
        }
      }
      if snapshot.released {
        return Err(InvalidState);
      }
      var bound := BindDriver(pci, Some(DPDK_DRIVER), b);
      if !bound {
        return Err(ExecutionFailed);
      }
      var saved := WriteState(snapshot, f.last);
      return if saved then Ok(snapshot) else Err(PersistenceFailed);
    }

    method RestoreDriver(pci: string, f: RestoreFaults, b: BindFaults) returns (r: Result<Snapshot<string, string>>)
      modifies this
      ensures var original := if old(file).Some? then old(file).value.original else None;
              var change := (v: Option<string>) => Resources.BindDriver(v, original, b);
              var o := Restore(old(State()), Some(pci), ValidPciAddress(pci), f, change);
              State() == o.world && r == o.result
    {
      if !ValidPciAddress(pci) {
        return Err(InvalidArgument);
      }
      if !f.fileRead || file.None? {
        return Err(PersistenceFailed);
      }
      var snapshot := file.value;
      if snapshot.key != pci {
        return Err(OperationConflict);
      }
      if !snapshot.released {
        var bound := BindDriver(pci, snapshot.original, b);
        if !bound || !f.clear {
          return Err(ExecutionFailed);
        }
        snapshot := snapshot.(released := true);
        var saved := WriteState(snapshot, f.last);
        if !saved {
          return Err(PersistenceFailed);
        }
      }
      return Ok(snapshot);
    }
  }

  lemma PutTwice<K, V>(kernel: map<K, V>, key: K, a: Option<V>, b: Option<V>)
    ensures Put(Put(kernel, key, a), key, b) == Put(kernel, key, b)
  {}

  /** A pool of huge pages: a node, or the whole machine, and a page size. */
  datatype Pool = Pool(node: Option<nat>, pageSizeKib: nat)

  class HugepageExecutor {
    var file: Option<Snapshot<Pool, nat>>
    var counts: map<Pool, nat>
    ghost var log: seq<Event<Pool, nat>>

    ghost function State(): World<Pool, nat>
      reads this
    {
      World(file, counts, log)
    }

    method WriteState(snapshot: Snapshot<Pool, nat>, write: Write) returns (ok: bool)
      modifies this`file
      ensures State() == Save(old(State()), snapshot, write) && ok == write.Written?
    {
      if write != WriteFailed(false) {
        file := Some(snapshot);
      }
      ok := write.Written?;
    }

    method WriteCount(pool: Pool, pages: Option<nat>, f: CountFaults) returns (ok: bool)
      modifies this`counts, this`log
      ensures var act := Resources.WriteCount(pages, f);
              State() == Change(old(State()), pool, act) && ok == act.ok
    {
      log := log + [Touch(pool, At(counts, pool))];
      counts := Put(counts, pool, f.write.after);
      if !f.write.succeeds || !f.lastRead || pool !in counts {
        return false;
      }
      log := log + [Read(pool, At(counts, pool))];
      ok := At(counts, pool) == pages;
    }

    /** A pool that does not exist cannot be read. */
    method PrepareHugepages(
        pool: Pool, pages: nat, f: PrepareFaults, c: CountFaults)
      returns (r: Result<Snapshot<Pool, nat>>)
      modifies this
      ensures var faults := f.(valueRead := f.valueRead && pool in old(counts));
              var valid, change := ValidHugepages(pages, pool.pageSizeKib),
                  (v: Option<nat>) => Resources.WriteCount(Some(pages), c);
              var o := Prepare(old(State()), pool, Some(pages), valid, faults, change);
              State() == o.world && r == o.result
    {
      if !ValidHugepages(pages, pool.pageSizeKib) {
        return Err(InvalidArgument);
      }
      var snapshot;
      if file.Some? {
        if !f.fileRead {
          return Err(PersistenceFailed);
        }
        snapshot := file.value;
        if snapshot.key != pool || snapshot.target != Some(pages) {
          return Err(OperationConflict);
        }
      } else {
        if !f.valueRead || pool !in counts {
          return Err(ExecutionFailed);
        }
        snapshot := Snapshot(pool, Some(pages), Some(counts[pool]), false);
        var saved := WriteState(snapshot, f.first);
        if !saved {
          return Err(PersistenceFailed);
        }
      }
      if snapshot.released {
        return Err(InvalidState);
      }
      var counted := WriteCount(pool, Some(pages), c);
      if !counted {
        return Err(ExecutionFailed);
      }
      var saved := WriteState(snapshot, f.last);
      return if saved then Ok(snapshot) else Err(PersistenceFailed);
    }

    method ReleaseHugepages(fileRead: bool, last: Write, c: CountFaults) returns (r: Result<Snapshot<Pool, nat>>)
      modifies this
      ensures var original := if old(file).Some? then old(file).value.original else None;
              var change := (v: Option<nat>) => Resources.WriteCount(original, c);
              var o := Restore(old(State()), None, true, RestoreFaults(fileRead, true, last), change);
              State() == o.world && r == o.result
    {
      if !fileRead || file.None? {
        return Err(PersistenceFailed);
      }
      var snapshot := file.value;
      if !snapshot.released {
        var counted := WriteCount(snapshot.key, snapshot.original, c);
        if !counted {
          return Err(ExecutionFailed);
        }
        snapshot := snapshot.(released := true);
        var saved := WriteState(snapshot, last);
        if !saved {
          return Err(PersistenceFailed);
        }
      }
      return Ok(snapshot);
    }
  }
}
