/** The AF_XDP worker's ring operations, on rings whose other index belongs to the kernel.

    Each ring remembers, as ghost state, every descriptor ever published on it (`stream`) and how many
    of them were taken.  The kernel may move its own index at any point of an operation; its moves are
    parameters, one for every point at which it can be seen. */
module XdpWorker {
  import opened Bits
  import opened Common
  import opened Umem

  datatype Error = DescriptorRejected | BufferTooSmall | FrameRejected | RingNotEmpty | RingTooSmall

  datatype Outcome = Done(count: nat) | Error(error: Error)

  /** The kernel's k-th move; it does nothing beyond the list. */
  function MoveAt(moves: seq<nat>, k: nat): nat {
    if k < |moves| then moves[k] else 0
  }

  function BatchAt(batches: seq<seq<XdpDescriptor>>, k: nat): seq<XdpDescriptor> {
    if k < |batches| then batches[k] else []
  }

  lemma OthersElsewhere(lo: nat, hi: nat, entries: nat)
    requires hi < lo + entries
    ensures forall n :: lo <= n < hi ==> Fold(n, entries) != Fold(hi, entries)
  {
    forall n | lo <= n < hi ensures Fold(n, entries) != Fold(hi, entries) {
      SlotsDiffer(n, hi, entries);
    }
  }

  class Ring {
    const entries: nat
    const slots: array<XdpDescriptor>
    var producer: nat
    var consumer: nat
    ghost var stream: seq<XdpDescriptor>
    ghost var taken: nat

    ghost predicate Valid()
      reads this, slots
    {
      && IsPowerOfTwo(entries) && 0 < entries < U32_SPAN && slots.Length == entries
      && taken <= |stream| <= taken + entries
      && producer == |stream| % U32_SPAN
      && consumer == taken % U32_SPAN
      && forall n {:trigger Held(n, stream[n])} :: taken <= n < |stream| ==> Held(n, stream[n])
    }

    ghost predicate Held(counter: nat, d: XdpDescriptor)
      requires 0 < entries == slots.Length
      reads slots
    {
      slots[Fold(counter, entries)] == d
    }

    /** Descriptors written past the published ones, not yet published. */
    ghost predicate Staged(items: seq<XdpDescriptor>)
      requires 0 < entries == slots.Length
      reads this, slots
    {
      forall k :: 0 <= k < |items| ==> Held(|stream| + k, items[k])
    }

    /** A ring as the kernel hands it over: empty. */
    constructor (entries: nat)
      requires IsPowerOfTwo(entries) && entries < U32_SPAN
      ensures Valid() && fresh(slots) && this.entries == entries && stream == [] && taken == 0
    {
      this.entries := entries;
      this.slots := new XdpDescriptor[entries](_ => XdpDescriptor(0, 0, 0));
      producer, consumer, stream, taken := 0, 0, [], 0;
    }

    /** The kernel takes up to n descriptors. */
    method KernelTakes(n: nat)
      requires Valid()
      modifies this`consumer, this`taken
      ensures Valid() && taken == Min(old(taken) + n, |stream|)
    {
      var available := WrapSub(producer, consumer);
      WrapDistance(|stream|, taken);
      WrapAddCounter(taken, Min(n, available));
      consumer := WrapAdd(consumer, Min(n, available));
      taken := taken + Min(n, |stream| - taken);
    }

    /** Writes the k-th slot past the published ones; nothing unread is disturbed. */
    method Stage(d: XdpDescriptor, k: nat, ghost items: seq<XdpDescriptor>)
      requires Valid() && |stream| + k < taken + entries && k == |items| && Staged(items)
      modifies slots
      ensures Valid() && Staged(items + [d])
    {
      var slot := And(WrapAdd(producer, k), entries - 1);
      MaskedSlotAfter(|stream|, k, entries);
      OthersElsewhere(taken, |stream| + k, entries);
      slots[slot] := d;
      forall n | taken <= n < |stream| ensures Held(n, stream[n]) {
        assert old(Held(n, stream[n])) && Fold(n, entries) != slot;
      }
      forall j | 0 <= j < k ensures Held(|stream| + j, items[j]) {
        assert old(Held(|stream| + j, items[j])) && Fold(|stream| + j, entries) != slot;
      }
      assert Held(|stream| + k, d);
    }

    /** Publishes the staged descriptors. */
    method Publish(count: nat, ghost items: seq<XdpDescriptor>)
      requires Valid() && count == |items| && |stream| + count <= taken + entries && Staged(items)
      modifies this`producer, this`stream
      ensures Valid() && stream == old(stream) + items
    {
      WrapAddCounter(|stream|, count);
      producer := WrapAdd(producer, count);
      ghost var before := |stream|;
      stream := stream + items;
      forall n | taken <= n < |stream| ensures Held(n, stream[n]) {
        if n < before {
          assert old(Held(n, stream[n]));
        } else {
          assert old(Held(before + (n - before), items[n - before]));
        }
      }
    }

    /** The kernel publishes the longest prefix that fits. */
    method KernelPublishes(batch: seq<XdpDescriptor>)
      requires Valid()
      modifies this`producer, this`stream, slots
      ensures Valid() && old(stream) <= stream
      ensures stream == old(stream) + batch[..Min(|batch|, entries - (|old(stream)| - taken))]
    {
      WrapDistance(|stream|, taken);
      var count := Min(|batch|, entries - WrapSub(producer, consumer));
      for k := 0 to count
        invariant Valid() && stream == old(stream) && Staged(batch[..k])
      {
        Stage(batch[k], k, batch[..k]);
        assert batch[..k] + [batch[k]] == batch[..k + 1];
      }
      Publish(count, batch[..count]);
    }

    /** The k-th unread descriptor, through the masked u32 index. */
    method Peek(k: nat) returns (d: XdpDescriptor)
      requires Valid() && taken + k < |stream|
      ensures d == stream[taken + k]
    {
      MaskedSlotAfter(taken, k, entries);
      assert Held(taken + k, stream[taken + k]);
      d := slots[And(WrapAdd(consumer, k), entries - 1)];
    }

    method Advance(count: nat)
      requires Valid() && taken + count <= |stream|
      modifies this`consumer, this`taken
      ensures Valid() && taken == old(taken) + count
    {
      WrapAddCounter(taken, count);
      consumer := WrapAdd(consumer, count);
      taken := taken + count;
    }
  }

  // ---- Producing: TX and FILL ----

  /** The first descriptor the check rejects, or the length. */
  function FirstRejected(u: Region, ds: seq<XdpDescriptor>): (i: nat)
    ensures i <= |ds|
    ensures forall k :: 0 <= k < i ==> ValidDescriptor(u, ds[k])
    ensures i < |ds| ==> !ValidDescriptor(u, ds[i])
  {
    if ds == [] || !ValidDescriptor(u, ds[0]) then 0 else 1 + FirstRejected(u, ds[1..])
  }

  /** `submit_tx`.  With room for `fits` descriptors when the kernel's index is read, exactly the longest
      prefix that fits is published, all or nothing if one of it is rejected. */
  method SubmitTx(
      tx: Ring, umem: Region, ds: seq<XdpDescriptor>, kernel: seq<nat>)
    returns (r: Outcome, ghost fits: nat)
    requires tx.Valid()
    modifies tx`producer, tx`consumer, tx`stream, tx`taken, tx.slots
    ensures tx.Valid() && old(tx.taken) <= tx.taken
    ensures fits == tx.entries - (|old(tx.stream)| - Min(old(tx.taken) + MoveAt(kernel, 0), |old(tx.stream)|))
    ensures r.Done? <==> FirstRejected(umem, ds[..Min(|ds|, fits)]) == Min(|ds|, fits)
    ensures r.Done? ==> r.count == Min(|ds|, fits) && tx.stream == old(tx.stream) + ds[..r.count]
    ensures r.Error? ==> r.error.DescriptorRejected? && tx.stream == old(tx.stream) && tx.producer == old(tx.producer)
  {
    var producer := tx.producer;
    tx.KernelTakes(MoveAt(kernel, 0));
    var consumer := tx.consumer;
    WrapDistance(|tx.stream|, tx.taken);
    var free := tx.entries - Min(WrapSub(producer, consumer), tx.entries);
    fits := free;
    var count := Min(free, |ds|);
    var ok := StageTx(tx, umem, ds[..count], kernel);
    if !ok {
      return Error(DescriptorRejected), fits;
    }
    if count != 0 {
      tx.Publish(count, ds[..count]);
    }
    r := Done(count);
  }

  /** The loop of `submit_tx`. */
  method StageTx(tx: Ring, umem: Region, ds: seq<XdpDescriptor>, kernel: seq<nat>) returns (ok: bool)
    requires tx.Valid() && |tx.stream| + |ds| <= tx.taken + tx.entries
    modifies tx`consumer, tx`taken, tx.slots
    ensures tx.Valid() && old(tx.taken) <= tx.taken
    ensures ok <==> FirstRejected(umem, ds) == |ds|
    ensures ok ==> tx.Staged(ds)
  {
    for k := 0 to |ds|
      invariant tx.Valid() && old(tx.taken) <= tx.taken
      invariant tx.Staged(ds[..k]) && k <= FirstRejected(umem, ds)
    {
      tx.KernelTakes(MoveAt(kernel, k + 1));
      if !ValidDescriptor(umem, ds[k]) {
        return false;
      }
      tx.Stage(ds[k], k, ds[..k]);
      assert ds[..k] + [ds[k]] == ds[..k + 1];
    }
    assert ds[..|ds|] == ds;
    return true;
  }

  /** The descriptors `refill_fill` writes for a list of frames. */
  function FrameBases(u: Region, frames: seq<nat>): seq<XdpDescriptor>
    requires u.chunkSize > 0
  {
    seq(|frames|, i requires 0 <= i < |frames| => XdpDescriptor(frames[i] * u.chunkSize, 0, 0))
  }

  method RefillFill(fill: Ring, umem: Region, frames: seq<nat>, kernel: seq<nat>) returns (r: Outcome, ghost fits: nat)
    requires fill.Valid() && Umem.Valid(umem)
    modifies fill`producer, fill`consumer, fill`stream, fill`taken, fill.slots
    ensures fill.Valid() && old(fill.taken) <= fill.taken
    ensures fits == fill.entries - (|old(fill.stream)| - Min(old(fill.taken) + MoveAt(kernel, 0), |old(fill.stream)|))
    ensures r.Done? <==> forall i :: 0 <= i < Min(|frames|, fits) ==> frames[i] < FrameCount(umem)
    ensures r.Done? ==> r.count == Min(|frames|, fits)
    ensures r.Done? ==> fill.stream == old(fill.stream) + FrameBases(umem, frames[..r.count])
    ensures r.Error? ==> r.error.FrameRejected?
    ensures r.Error? ==> fill.stream == old(fill.stream) && fill.producer == old(fill.producer)
  {
    var producer := fill.producer;
    fill.KernelTakes(MoveAt(kernel, 0));
    var consumer := fill.consumer;
    WrapDistance(|fill.stream|, fill.taken);
    var free := fill.entries - Min(WrapSub(producer, consumer), fill.entries);
    fits := free;
    var count := Min(free, |frames|);
    var ok := StageFrames(fill, umem, frames[..count], kernel);
    if !ok {
      return Error(FrameRejected), fits;
    }
    if count != 0 {
      fill.Publish(count, FrameBases(umem, frames[..count]));
    }
    r := Done(count);
  }

  /** The loop of `refill_fill`. */
  method StageFrames(fill: Ring, umem: Region, frames: seq<nat>, kernel: seq<nat>) returns (ok: bool)
    requires fill.Valid() && Umem.Valid(umem) && |fill.stream| + |frames| <= fill.taken + fill.entries
    modifies fill`consumer, fill`taken, fill.slots
    ensures fill.Valid() && old(fill.taken) <= fill.taken
    ensures ok <==> forall i :: 0 <= i < |frames| ==> frames[i] < FrameCount(umem)
    ensures ok ==> fill.Staged(FrameBases(umem, frames))
  {
    ghost var bases := FrameBases(umem, frames);
    for k := 0 to |frames|
      invariant fill.Valid() && old(fill.taken) <= fill.taken
      invariant fill.Staged(bases[..k]) && forall i :: 0 <= i < k ==> frames[i] < FrameCount(umem)
    {
      fill.KernelTakes(MoveAt(kernel, k + 1));
      var base := FrameOffset(umem, frames[k]);
      if frames[k] < FrameCount(umem) { ChunkInside(umem, frames[k]); }
      if base.InvalidConfig? {
        return false;
      }
      fill.Stage(XdpDescriptor(base.value, 0, 0), k, bases[..k]);
      assert bases[..k] + [XdpDescriptor(base.value, 0, 0)] == bases[..k + 1];
    }
    assert bases[..|frames|] == bases;
    return true;
  }

  /** `initialize_fill_ring`: afterwards the FILL ring holds every frame base exactly once, in order. */
  method InitializeFillRing(fill: Ring, umem: Region) returns (r: Outcome)
    requires fill.Valid() && Umem.Valid(umem)
    modifies fill`producer, fill`stream, fill.slots
    ensures fill.Valid() && fill.taken == old(fill.taken) && fill.consumer == old(fill.consumer)
    ensures r.Done? <==> old(fill.producer) == 0 && fill.consumer == 0 && FrameCount(umem) <= fill.entries
    ensures r.Done? ==> r.count == FrameCount(umem)
    ensures r.Done? ==> fill.stream == old(fill.stream) + FrameBases(umem, seq(r.count, i => i))
    ensures r.Done? ==> forall i :: 0 <= i < r.count ==> fill.slots[i].address == i * umem.chunkSize
    ensures r.Error? ==> fill.stream == old(fill.stream) && fill.producer == old(fill.producer)
  {
    if fill.producer != 0 || fill.consumer != 0 {
      return Error(RingNotEmpty);
    }
    var count := FrameCount(umem);
    if count > fill.entries {
      return Error(RingTooSmall);
    }
    WrapDistance(|fill.stream|, fill.taken);
    ghost var bases := FrameBases(umem, seq(count, i => i));
    for k := 0 to count
      invariant fill.Valid() && fill.stream == old(fill.stream) && fill.producer == 0
      invariant fill.Staged(bases[..k])
      invariant forall i :: 0 <= i < k ==> fill.slots[i].address == i * umem.chunkSize
    {
      ChunkInside(umem, k);
      var base := FrameOffset(umem, k).value;
      StageAt(fill, XdpDescriptor(base, 0, 0), k, bases[..k]);
      assert bases[..k] + [XdpDescriptor(base, 0, 0)] == bases[..k + 1];
    }
    assert bases[..count] == bases;
    fill.Publish(count, bases);
    r := Done(count);
  }

  /** Writing slot k directly, as the initial fill does, is staging on a ring whose indices are zero. */
  method StageAt(fill: Ring, d: XdpDescriptor, k: nat, ghost items: seq<XdpDescriptor>)
    requires fill.Valid() && fill.producer == 0 && k < fill.entries
    requires |fill.stream| == fill.taken && k == |items| && fill.Staged(items)
    modifies fill.slots
    ensures fill.Valid() && fill.Staged(items + [d])
    ensures forall i :: 0 <= i < fill.entries ==> fill.slots[i] == if i == k then d else old(fill.slots[i])
  {
    StartOfRing(|fill.stream|, k, fill.entries);
    OthersElsewhere(|fill.stream|, |fill.stream| + k, fill.entries);
    fill.slots[k] := d;
    forall j | 0 <= j < |items + [d]| ensures fill.Held(|fill.stream| + j, (items + [d])[j]) {
      if j < k { assert old(fill.Held(|fill.stream| + j, items[j])); }
    }
  }
}
