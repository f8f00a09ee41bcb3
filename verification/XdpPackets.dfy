/** Multi-buffer packets: how a stream of descriptors splits into whole packets. */
module XdpPackets {
  import opened Bits
  import opened Umem
  import opened XdpWorker

  /** Another descriptor of the same packet follows. */
  predicate Continues(d: XdpDescriptor) {
    d.options / 2 % 2 == 1
  }

  /** It is the source's test of the option bits. */
  lemma ContinuesIsMask(d: XdpDescriptor)
    ensures Continues(d) <==> And(d.options, XDP_PKT_CONTD) != 0
  {
    var half := d.options / 2;
    assert And(d.options, 2) == if d.options == 0 then 0 else 2 * And(half, 1);
    assert And(half, 1) == if half == 0 then 0 else (if half % 2 == 1 then 1 else 0) + 2 * And(half / 2, 0);
  }

  /** Length of the first whole chain, or 0 if the descriptors end inside it. */
  function ChainLength(ds: seq<XdpDescriptor>): (n: nat)
    ensures n <= |ds|
    ensures n > 0 ==> !Continues(ds[n - 1]) && forall k :: 0 <= k < n - 1 ==> Continues(ds[k])
    ensures n == 0 ==> forall k :: 0 <= k < |ds| ==> Continues(ds[k])
  {
    if ds == [] then 0
    else if !Continues(ds[0]) then 1
    else
      var n := ChainLength(ds[1..]);
      if n == 0 then 0 else n + 1
  }

  /** One packet: every descriptor but the last announces another. */
  ghost predicate Whole(chain: seq<XdpDescriptor>) {
    && chain != []
    && !Continues(chain[|chain| - 1])
    && forall k :: 0 <= k < |chain| - 1 ==> Continues(chain[k])
  }

  ghost predicate EndsPacket(ds: seq<XdpDescriptor>) {
    ds == [] || !Continues(ds[|ds| - 1])
  }

  /** The packets of a descriptor stream, leaving out an unfinished one at the end. */
  function Packets(ds: seq<XdpDescriptor>): seq<seq<XdpDescriptor>>
    decreases |ds|
  {
    var n := ChainLength(ds);
    if n == 0 then [] else [ds[..n]] + Packets(ds[n..])
  }

  function Flatten(packets: seq<seq<XdpDescriptor>>): seq<XdpDescriptor> {
    if packets == [] then [] else packets[0] + Flatten(packets[1..])
  }

  lemma ChainLengthUnique(ds: seq<XdpDescriptor>, n: nat)
    requires n <= |ds| && Whole(ds[..n])
    ensures ChainLength(ds) == n
  {
    var m := ChainLength(ds);
    assert ds[..n][n - 1] == ds[n - 1];
    assert forall k :: 0 <= k < n - 1 ==> ds[..n][k] == ds[k];
  }

  lemma FirstChainWhole(ds: seq<XdpDescriptor>)
    requires ChainLength(ds) > 0
    ensures Whole(ds[..ChainLength(ds)])
  {}

  lemma PacketsFirst(chain: seq<XdpDescriptor>, rest: seq<XdpDescriptor>)
    requires Whole(chain)
    ensures Packets(chain + rest) == [chain] + Packets(rest)
  {
    assert (chain + rest)[..|chain|] == chain && (chain + rest)[|chain|..] == rest;
    ChainLengthUnique(chain + rest, |chain|);
  }

  /** A stream that ends a packet starts with a whole one, after which it still ends a packet. */
  lemma FirstPacket(ds: seq<XdpDescriptor>) returns (chain: seq<XdpDescriptor>, rest: seq<XdpDescriptor>)
    requires EndsPacket(ds) && ds != []
    ensures ds == chain + rest && Whole(chain) && EndsPacket(rest)
  {
    var n := ChainLength(ds);
    FirstChainWhole(ds);
    chain, rest := ds[..n], ds[n..];
  }

  /** A whole chain after a packet boundary is the next packet. */
  lemma {:induction false} PacketsAppend(ds: seq<XdpDescriptor>, chain: seq<XdpDescriptor>)
    requires EndsPacket(ds) && Whole(chain)
    ensures Packets(ds + chain) == Packets(ds) + [chain]
    decreases |ds|
  {
    if ds == [] {
      assert ds + chain == chain + [];
      PacketsFirst(chain, []);
    } else {
      var first, rest := FirstPacket(ds);
      calc {
        Packets(ds + chain);
        { assert ds + chain == first + (rest + chain); }
        Packets(first + (rest + chain));
        { PacketsFirst(first, rest + chain); }
        [first] + Packets(rest + chain);
        { PacketsAppend(rest, chain); }
        [first] + (Packets(rest) + [chain]);
        ([first] + Packets(rest)) + [chain];
        { PacketsFirst(first, rest); }
        Packets(ds) + [chain];
      }
    }
  }

  /** At a boundary the packets are the whole stream, each of them a whole chain. */
  lemma {:induction false} PacketsPartition(ds: seq<XdpDescriptor>)
    requires EndsPacket(ds)
    ensures Flatten(Packets(ds)) == ds
    ensures forall p :: p in Packets(ds) ==> Whole(p)
    decreases |ds|
  {
    if ds != [] {
      var first, rest := FirstPacket(ds);
      PacketsPartition(rest);
      PacketsFirst(first, rest);
      assert Packets(ds)[1..] == Packets(rest);
    }
  }

  /** What `receive_packet_into` looks at: the first chain, or all of it if unfinished. */
  ghost function Scanned(visible: seq<XdpDescriptor>): seq<XdpDescriptor> {
    if ChainLength(visible) == 0 then visible else visible[..ChainLength(visible)]
  }

  ghost function ScanOutcome(umem: Region, visible: seq<XdpDescriptor>): Outcome {
    if FirstRejected(umem, Scanned(visible)) < |Scanned(visible)| then Error(DescriptorRejected)
    else Done(ChainLength(visible))
  }

  ghost function PacketOutcome(umem: Region, visible: seq<XdpDescriptor>, room: nat): Outcome {
    var scan := ScanOutcome(umem, visible);
    if scan.Done? && scan.count > room then Error(BufferTooSmall) else scan
  }

  /** The scan stops with an error at a rejected descriptor of a chain that has not ended. */
  lemma ScanRejects(umem: Region, visible: seq<XdpDescriptor>, k: nat)
    requires k < |visible| && !ValidDescriptor(umem, visible[k])
    requires forall j :: 0 <= j < k ==> ValidDescriptor(umem, visible[j]) && Continues(visible[j])
    ensures FirstRejected(umem, Scanned(visible)) < |Scanned(visible)|
  {
    assert ChainLength(visible) > k || ChainLength(visible) == 0;
    assert Scanned(visible)[k] == visible[k];
  }

  /** It ends a chain of checked descriptors. */
  lemma ScanEnds(umem: Region, visible: seq<XdpDescriptor>, k: nat)
    requires k < |visible| && ValidDescriptor(umem, visible[k]) && !Continues(visible[k])
    requires forall j :: 0 <= j < k ==> ValidDescriptor(umem, visible[j]) && Continues(visible[j])
    ensures ChainLength(visible) == k + 1 && FirstRejected(umem, Scanned(visible)) == |Scanned(visible)|
  {
    ChainLengthUnique(visible, k + 1);
    assert forall j :: 0 <= j < k + 1 ==> Scanned(visible)[j] == visible[j];
  }

  /** It runs out of descriptors. */
  lemma ScanRunsOut(umem: Region, visible: seq<XdpDescriptor>)
    requires forall j :: 0 <= j < |visible| ==> ValidDescriptor(umem, visible[j]) && Continues(visible[j])
    ensures ChainLength(visible) == 0 && FirstRejected(umem, Scanned(visible)) == |Scanned(visible)|
  {}

  /** The first chain of what follows a boundary is the next packet. */
  lemma NextPacket(before: seq<XdpDescriptor>, visible: seq<XdpDescriptor>, n: nat)
    requires EndsPacket(before) && ChainLength(visible) == n > 0
    ensures Whole(visible[..n]) && EndsPacket(before + visible[..n])
    ensures Packets(before + visible[..n]) == Packets(before) + [visible[..n]]
  {
    FirstChainWhole(visible);
    PacketsAppend(before, visible[..n]);
  }
}
