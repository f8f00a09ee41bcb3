/** The consuming half of the AF_XDP worker: RX and COMPLETION. */
module XdpReceive {
  import opened Bits
  import opened Common
  import opened Umem
  import opened XdpWorker
  import opened XdpPackets

  /** The stream once the kernel's first batch is published: what the worker sees when it reads the
      kernel's index. */
  ghost function Seen(
      stream: seq<XdpDescriptor>, taken: nat, entries: nat, batch: seq<XdpDescriptor>): seq<XdpDescriptor>
    requires taken <= |stream| <= taken + entries
  {
    stream + batch[..Min(|batch|, entries - (|stream| - taken))]
  }

  /** The k-th unread descriptor of a stream that has only grown since. */
  method PeekSeen(rx: Ring, k: nat, ghost seen: seq<XdpDescriptor>) returns (d: XdpDescriptor)
    requires rx.Valid() && seen <= rx.stream && rx.taken + k < |seen|
    ensures d == seen[rx.taken + k]
  {
    d := rx.Peek(k);
  }

  /** `receive_into`: takes exactly the first unread descriptors that fit the output, or none if one of
      them is rejected. */
  method ReceiveInto(rx: Ring, umem: Region, output: array<XdpDescriptor>, kernel: seq<seq<XdpDescriptor>>)
    returns (r: Outcome, ghost wanted: seq<XdpDescriptor>)
    requires rx.Valid() && output != rx.slots
    modifies rx`producer, rx`consumer, rx`stream, rx`taken, rx.slots, output
    ensures rx.Valid()
    ensures var seen := Seen(old(rx.stream), old(rx.taken), rx.entries, BatchAt(kernel, 0));
            && seen <= rx.stream
            && wanted == seen[old(rx.taken)..old(rx.taken) + Min(output.Length, |seen| - old(rx.taken))]
    ensures r.Done? <==> FirstRejected(umem, wanted) == |wanted|
    ensures r.Done? ==> r.count == |wanted| && rx.taken == old(rx.taken) + |wanted| && output[..r.count] == wanted
    ensures r.Error? ==> rx.taken == old(rx.taken) && rx.consumer == old(rx.consumer)
  {
    rx.KernelPublishes(BatchAt(kernel, 0));
    WrapDistance(|rx.stream|, rx.taken);
    var count := Min(Min(WrapSub(rx.producer, rx.consumer), rx.entries), output.Length);
    wanted := rx.stream[rx.taken..rx.taken + count];
    var ok := CopyChecked(rx, umem, output, count, kernel, wanted);
    if !ok {
      return Error(DescriptorRejected), wanted;
    }
    if count != 0 {
      rx.Advance(count);
    }
    r := Done(count);
  }

  /** The loop of `receive_into`. */
  method CopyChecked(
      rx: Ring, umem: Region, output: array<XdpDescriptor>, count: nat, kernel: seq<seq<XdpDescriptor>>,
      ghost wanted: seq<XdpDescriptor>)
    returns (ok: bool)
    requires rx.Valid() && output != rx.slots && count <= output.Length
    requires rx.taken + count <= |rx.stream| && wanted == rx.stream[rx.taken..rx.taken + count]
    modifies rx`producer, rx`stream, rx.slots, output
    ensures rx.Valid() && old(rx.stream) <= rx.stream
    ensures ok <==> FirstRejected(umem, wanted) == count
    ensures ok ==> output[..count] == wanted
  {
    ghost var seen := rx.stream;
    for k := 0 to count
      invariant rx.Valid() && seen <= rx.stream
      invariant forall i :: 0 <= i < k ==> output[i] == wanted[i]
      invariant forall i :: 0 <= i < k ==> ValidDescriptor(umem, wanted[i])
    {
      rx.KernelPublishes(BatchAt(kernel, k + 1));
      var descriptor := PeekSeen(rx, k, seen);
      assert wanted[k] == seen[rx.taken + k];
      if !ValidDescriptor(umem, descriptor) {
        return false;
      }
      output[k] := descriptor;
    }
    return true;
  }

  /** `recycle_completions`: as `receive_into`, but completions are not checked. */
  method RecycleCompletions(completion: Ring, output: array<XdpDescriptor>, kernel: seq<seq<XdpDescriptor>>)
    returns (count: nat, ghost wanted: seq<XdpDescriptor>)
    requires completion.Valid() && output != completion.slots
    modifies completion`producer, completion`consumer, completion`stream, completion`taken, completion.slots, output
    ensures completion.Valid()
    ensures var seen := Seen(old(completion.stream), old(completion.taken), completion.entries, BatchAt(kernel, 0));
            && seen <= completion.stream
            && wanted == seen[old(completion.taken)..old(completion.taken)
                + Min(output.Length, |seen| - old(completion.taken))]
    ensures count == |wanted| && completion.taken == old(completion.taken) + count && output[..count] == wanted
  {
    completion.KernelPublishes(BatchAt(kernel, 0));
    WrapDistance(|completion.stream|, completion.taken);
    count := Min(Min(WrapSub(completion.producer, completion.consumer), completion.entries), output.Length);
    wanted := completion.stream[completion.taken..completion.taken + count];
    CopyOut(completion, output, count, kernel, wanted);
    if count != 0 {
      completion.Advance(count);
    }
  }

  /** The unchecked copying loop, of `recycle_completions` and of the second half of
      `receive_packet_into`. */
  method CopyOut(
      rx: Ring, output: array<XdpDescriptor>, count: nat, kernel: seq<seq<XdpDescriptor>>,
      ghost wanted: seq<XdpDescriptor>)
    requires rx.Valid() && output != rx.slots && count <= output.Length
    requires rx.taken + count <= |rx.stream| && wanted == rx.stream[rx.taken..rx.taken + count]
    modifies rx`producer, rx`stream, rx.slots, output
    ensures rx.Valid() && old(rx.stream) <= rx.stream
    ensures output[..count] == wanted
  {
    ghost var seen := rx.stream;
    for k := 0 to count
      invariant rx.Valid() && seen <= rx.stream
      invariant forall i :: 0 <= i < k ==> output[i] == wanted[i]
    {
      rx.KernelPublishes(BatchAt(kernel, k + 1));
      var descriptor := PeekSeen(rx, k, seen);
      assert wanted[k] == seen[rx.taken + k];
      output[k] := descriptor;
    }
  }

  lemma GrownSlice(seen: seq<XdpDescriptor>, now: seq<XdpDescriptor>, taken: nat, n: nat)
    requires seen <= now && taken + n <= |seen|
    ensures seen[taken..][..n] == now[taken..taken + n]
  {}

  /** `receive_packet_into`: takes the next whole packet or nothing at all. */
  method ReceivePacketInto(
      rx: Ring, umem: Region, output: array<XdpDescriptor>, kernel: seq<seq<XdpDescriptor>>,
      later: seq<seq<XdpDescriptor>>)
    returns (r: Outcome, ghost visible: seq<XdpDescriptor>)
    requires rx.Valid() && output != rx.slots
    modifies rx`producer, rx`consumer, rx`stream, rx`taken, rx.slots, output
    ensures rx.Valid()
    ensures var seen := Seen(old(rx.stream), old(rx.taken), rx.entries, BatchAt(kernel, 0));
            seen <= rx.stream && visible == seen[old(rx.taken)..]
    ensures r == PacketOutcome(umem, visible, output.Length)
    ensures rx.taken == old(rx.taken) + (if r.Done? then r.count else 0)
    ensures r.Done? ==> r.count <= output.Length && (r.count > 0 ==> output[..r.count] == visible[..r.count])
    ensures r.Error? ==> rx.consumer == old(rx.consumer)
  {
    rx.KernelPublishes(BatchAt(kernel, 0));
    var available := Min(WrapSub(rx.producer, rx.consumer), rx.entries);
    assert available == |rx.stream| - rx.taken by { WrapDistance(|rx.stream|, rx.taken); }
    visible := rx.stream[rx.taken..];
    ghost var seen := rx.stream;
    r := ScanChain(rx, umem, available, kernel, visible);
    if r.Error? || r.count == 0 {
      return;
    }
    if output.Length < r.count {
      return Error(BufferTooSmall), visible;
    }
    TakeChain(rx, output, r.count, later, seen);
  }

  /** Copies and takes the first descriptors of a stream that has only grown since. */
  method TakeChain(
      rx: Ring, output: array<XdpDescriptor>, needed: nat, later: seq<seq<XdpDescriptor>>,
      ghost seen: seq<XdpDescriptor>)
    requires rx.Valid() && output != rx.slots && needed <= output.Length
    requires seen <= rx.stream && rx.taken + needed <= |seen|
    modifies rx`producer, rx`consumer, rx`stream, rx`taken, rx.slots, output
    ensures rx.Valid() && seen <= rx.stream && rx.taken == old(rx.taken) + needed
    ensures output[..needed] == seen[old(rx.taken)..][..needed]
  {
    ghost var wanted := seen[rx.taken..][..needed];
    GrownSlice(seen, rx.stream, rx.taken, needed);
    CopyOut(rx, output, needed, later, wanted);
    rx.Advance(needed);
  }

  /** The scanning loop of `receive_packet_into`; 0 stands for an unfinished chain. */
  method ScanChain(
      rx: Ring, umem: Region, available: nat, kernel: seq<seq<XdpDescriptor>>, ghost visible: seq<XdpDescriptor>)
    returns (r: Outcome)
    requires rx.Valid() && visible == rx.stream[rx.taken..] && available == |visible|
    modifies rx`producer, rx`stream, rx.slots
    ensures rx.Valid() && old(rx.stream) <= rx.stream
    ensures r == ScanOutcome(umem, visible)
  {
    ghost var seen := rx.stream;
    var needed := 0;
    while needed < available
      invariant rx.Valid() && seen <= rx.stream
      invariant 0 <= needed <= available
      invariant forall k :: 0 <= k < needed ==> ValidDescriptor(umem, visible[k]) && Continues(visible[k])
    {
      rx.KernelPublishes(BatchAt(kernel, needed + 1));
      var descriptor := PeekSeen(rx, needed, seen);
      assert descriptor == visible[needed];
      if !ValidDescriptor(umem, descriptor) {
        ScanRejects(umem, visible, needed);
        return Error(DescriptorRejected);
      }
      needed := needed + 1;
      if !Continues(descriptor) {
        ScanEnds(umem, visible, needed - 1);
        return Done(needed);
      }
    }
    ScanRunsOut(umem, visible);
    return Done(0);
  }

  /** Positions of a stream keep their meaning while it grows. */
  lemma GrownPrefix(was: seq<XdpDescriptor>, seen: seq<XdpDescriptor>, now: seq<XdpDescriptor>, taken: nat, n: nat)
    requires was <= seen <= now && taken <= |was| && taken + n <= |seen|
    ensures now[..taken] == was[..taken]
    ensures now[..taken + n] == was[..taken] + seen[taken..][..n]
  {
    assert now[..taken + n] == now[..taken] + now[taken..taken + n];
    GrownSlice(seen, now, taken, n);
  }

  /** Reading packet by packet from a boundary stays on boundaries: each successful call delivers the
      next packet of the stream, never half of one. */
  method ReceiveNextPacket(
      rx: Ring, umem: Region, output: array<XdpDescriptor>, kernel: seq<seq<XdpDescriptor>>,
      later: seq<seq<XdpDescriptor>>)
    returns (r: Outcome)
    requires rx.Valid() && output != rx.slots && EndsPacket(rx.stream[..rx.taken])
    modifies rx`producer, rx`consumer, rx`stream, rx`taken, rx.slots, output
    ensures rx.Valid() && EndsPacket(rx.stream[..rx.taken])
    ensures r.Done? ==> r.count <= output.Length
    ensures r.Done? && r.count > 0 ==> Whole(output[..r.count])
    ensures r.Done? && r.count > 0 ==>
              Packets(rx.stream[..rx.taken]) == Packets(old(rx.stream)[..old(rx.taken)]) + [output[..r.count]]
    ensures r.Error? || r.count == 0 ==> rx.stream[..rx.taken] == old(rx.stream)[..old(rx.taken)]
  {
    ghost var was, before := rx.stream, rx.stream[..rx.taken];
    ghost var visible;
    r, visible := ReceivePacketInto(rx, umem, output, kernel, later);
    ghost var seen := Seen(was, |before|, rx.entries, BatchAt(kernel, 0));
    if r.Done? && r.count > 0 {
      ghost var chain := visible[..r.count];
      assert rx.stream[..rx.taken] == before + chain by {
        GrownPrefix(was, seen, rx.stream, |before|, r.count);
      }
      NextPacket(before, visible, r.count);
      assert output[..r.count] == chain;
    } else {
      GrownPrefix(was, seen, rx.stream, |before|, 0);
    }
  }

  /** What the kernel does during one call. */
  datatype Round = Round(scanning: seq<seq<XdpDescriptor>>, copying: seq<seq<XdpDescriptor>>)

  /** Any number of successive calls, failing ones included: what they delivered is the stream they
      consumed, cut into whole packets. */
  method ReceiveMany(rx: Ring, umem: Region, output: array<XdpDescriptor>, rounds: seq<Round>)
    returns (delivered: seq<seq<XdpDescriptor>>)
    requires rx.Valid() && output != rx.slots && rx.taken == 0
    modifies rx`producer, rx`consumer, rx`stream, rx`taken, rx.slots, output
    ensures rx.Valid()
    ensures Flatten(delivered) == rx.stream[..rx.taken]
    ensures forall p :: p in delivered ==> Whole(p)
  {
    delivered := [];
    for i := 0 to |rounds|
      invariant rx.Valid() && EndsPacket(rx.stream[..rx.taken])
      invariant delivered == Packets(rx.stream[..rx.taken])
    {
      var r := ReceiveNextPacket(rx, umem, output, rounds[i].scanning, rounds[i].copying);
      if r.Done? && r.count > 0 {
        delivered := delivered + [output[..r.count]];
      }
    }
    PacketsPartition(rx.stream[..rx.taken]);
  }
}
