/** Where what the reader delivers is what the draft says a capture means, and where it is not. */
module PcapMeaning {
  import opened Common
  import opened PcapFormat
  import opened PcapEncoding
  import opened PcapTheorems

  // ---- Timestamp offsets ----

  /** Clipped to what 64 bits hold. */
  function Clipped(n: int): nat {
    if n < 0 then 0 else Saturated(n)
  }

  /** Whole nanoseconds of a timestamp before it is clipped. */
  function Floor(timestamp: nat, resolution: Resolution): nat {
    timestamp * 1_000_000_000 / TicksPerSecond(resolution)
  }

  /** Section 4.2: the offset of the interface is added to the time of each of its packets. */
  function TrueNanoseconds(timestamp: nat, resolution: Resolution, offset: int): nat {
    Clipped(Floor(timestamp, resolution) + offset * 1_000_000_000)
  }

  /** The offset is nothing, or clipping hides it at either end. */
  predicate OffsetHidden(floor: nat, offset: int) {
    || offset == 0
    || (offset < 0 && floor == 0)
    || (floor >= U64_MAX && floor + offset * 1_000_000_000 >= U64_MAX)
  }

  /** The reader does not read offsets: its time is right exactly when the offset is hidden. */
  lemma TimeRightIff(timestamp: nat, resolution: Resolution, offset: int)
    ensures ExactNanoseconds(timestamp, resolution) == TrueNanoseconds(timestamp, resolution, offset)
            <==> OffsetHidden(Floor(timestamp, resolution), offset)
  {}

  /** The offsets of the interfaces described so far. */
  function KnownOffsets(block: Block, offsets: seq<int>, endian: Endian): seq<int>
    requires Sized(block)
  {
    if block.InterfaceBlock? then offsets + [LastOffset(block.options, 0, endian)] else offsets
  }

  function TruePacket(block: Block, interfaces: seq<Interface>, offsets: seq<int>): Packet
    requires block.PacketBlock? && block.id < |interfaces| == |offsets|
  {
    var time := TrueNanoseconds(block.timestamp, interfaces[block.id].resolution, offsets[block.id]);
    PacketOf(block, interfaces).(nanoseconds := time)
  }

  /** The packets of the blocks, with their times as the draft means them. */
  function TruePackets(blocks: seq<Block>, endian: Endian, interfaces: seq<Interface>, offsets: seq<int>): seq<Packet>
    requires Readable(blocks, endian, interfaces) && |interfaces| == |offsets|
  {
    if blocks == [] then []
    else
      var later := TruePackets(blocks[1..], endian, Known(blocks[0], interfaces),
          KnownOffsets(blocks[0], offsets, endian));
      if blocks[0].PacketBlock? then [TruePacket(blocks[0], interfaces, offsets)] + later else later
  }

  /** Every packet's offset is hidden. */
  predicate OffsetsHidden(blocks: seq<Block>, endian: Endian, interfaces: seq<Interface>, offsets: seq<int>)
    requires Readable(blocks, endian, interfaces) && |interfaces| == |offsets|
  {
    blocks != [] ==>
      && (blocks[0].PacketBlock? ==>
            OffsetHidden(Floor(blocks[0].timestamp, interfaces[blocks[0].id].resolution), offsets[blocks[0].id]))
      && OffsetsHidden(blocks[1..], endian, Known(blocks[0], interfaces), KnownOffsets(blocks[0], offsets, endian))
  }

  lemma SameHead<T>(a: T, s: seq<T>, b: T, t: seq<T>)
    ensures [a] + s == [b] + t <==> a == b && s == t
  {
    assert ([a] + s)[0] == a && ([b] + t)[0] == b;
    assert ([a] + s)[1..] == s && ([b] + t)[1..] == t;
  }

  lemma {:induction false} PacketsRightIff(
      blocks: seq<Block>, endian: Endian, interfaces: seq<Interface>, offsets: seq<int>)
    requires Readable(blocks, endian, interfaces) && |interfaces| == |offsets|
    ensures Packets(blocks, endian, interfaces) == TruePackets(blocks, endian, interfaces, offsets)
            <==> OffsetsHidden(blocks, endian, interfaces, offsets)
  {
    if blocks != [] {
      var block := blocks[0];
      var known, moved := Known(block, interfaces), KnownOffsets(block, offsets, endian);
      PacketsRightIff(blocks[1..], endian, known, moved);
      if block.PacketBlock? {
        TimeRightIff(block.timestamp, interfaces[block.id].resolution, offsets[block.id]);
        SameHead(PacketOf(block, interfaces), Packets(blocks[1..], endian, known),
          TruePacket(block, interfaces, offsets), TruePackets(blocks[1..], endian, known, moved));
      }
    }
  }

  /** What the reader delivers of an encoded section. */
  function Delivered(blocks: seq<Block>, endian: Endian): seq<Packet>
    requires Readable(blocks, endian, [])
  {
    ReadAll(Ng(endian), Encode(blocks, endian, []), []).packets
  }

  /** What the reader delivers of a section is what the draft means by it exactly when every offset is
      absent, zero or hidden. */
  lemma DeliversMeaningIff(blocks: seq<Block>, endian: Endian)
    requires Readable(blocks, endian, [])
    ensures ReadAll(Ng(endian), Encode(blocks, endian, []), []).ending == End
    ensures Delivered(blocks, endian) == TruePackets(blocks, endian, [], []) <==> OffsetsHidden(blocks, endian, [], [])
  {
    DecodesEncoded(blocks, endian, []);
    PacketsRightIff(blocks, endian, [], []);
  }

  /** One second, as an offset. */
  function OneSecond(endian: Endian): seq<Byte> {
    if endian.Little? then [1, 0, 0, 0, 0, 0, 0, 0] else [0, 0, 0, 0, 0, 0, 0, 1]
  }

  /** An interface whose clock is one second behind, and an empty packet at its time zero. */
  function SlowInterface(endian: Endian): Block {
    InterfaceBlock(0, 0, [BlockOption(TsOffset(OneSecond(endian)), [])], false)
  }

  const EMPTY_PACKET := PacketBlock(0, 0, 0, [], [], [], false)

  lemma SlowInterfaceIs(endian: Endian)
    ensures Sized(SlowInterface(endian)) && WithinLimit(SlowInterface(endian), endian)
    ensures InterfaceOf(SlowInterface(endian)) == Interface(1, 0, Decimal(6))
    ensures LastOffset(SlowInterface(endian).options, 0, endian) == 1
  {
    var option := BlockOption(TsOffset(OneSecond(endian)), []);
    var options := [option];
    assert Padded(8) == 8 && Encodable(option) && AllEncodable(options);
    assert options[1..] == [];
    assert EncodeOptions(options, false, endian) == EncodeOption(option, endian) + EncodeOptions([], false, endian);
    assert |EncodeOption(option, endian)| == 12;
    assert LastResolution(options, Decimal(6)) == LastResolution([], Decimal(6));
    assert OffsetOf(OneSecond(endian), endian) == 1;
    assert LastOffset(options, 0, endian) == LastOffset([], 1, endian);
  }

  lemma EmptyPacketIs(endian: Endian, interfaces: seq<Interface>, offsets: seq<int>)
    requires interfaces == [Interface(1, 0, Decimal(6))] && offsets == [1]
    ensures Readable([EMPTY_PACKET], endian, interfaces)
    ensures Packets([EMPTY_PACKET], endian, interfaces) == [Packet([], 0, 0, 0)]
    ensures TruePackets([EMPTY_PACKET], endian, interfaces, offsets) == [Packet([], 1_000_000_000, 0, 0)]
  {
    assert [EMPTY_PACKET][1..] == [];
    assert Sized(EMPTY_PACKET) && |Body(EMPTY_PACKET, endian)| == 20;
    assert Readable([], endian, interfaces);
    assert Floor(0, Decimal(6)) == 0;
    assert PacketOf(EMPTY_PACKET, interfaces) == Packet([], 0, 0, 0);
  }

  /** A capture whose packet the reader dates one second early. */
  lemma OffsetIsIgnored(endian: Endian)
    ensures var blocks := [SlowInterface(endian), EMPTY_PACKET];
            && Readable(blocks, endian, [])
            && Delivered(blocks, endian) == [Packet([], 0, 0, 0)]
            && TruePackets(blocks, endian, [], []) == [Packet([], 1_000_000_000, 0, 0)]
  {
    var slow := SlowInterface(endian);
    var blocks := [slow, EMPTY_PACKET];
    SlowInterfaceIs(endian);
    assert blocks[1..] == [EMPTY_PACKET];
    EmptyPacketIs(endian, Known(slow, []), KnownOffsets(slow, [], endian));
    DecodesEncoded(blocks, endian, []);
  }

  // ---- Packets in other blocks ----

  /** Blocks that carry a packet: enhanced, simple (section 4.4) and the obsolete packet block. */
  predicate CarriesPacket(block: Block) {
    block.PacketBlock? || (block.UnknownBlock? && (block.kind == 2 || block.kind == 3))
  }

  function PacketCount(blocks: seq<Block>): nat {
    if blocks == [] then 0 else (if CarriesPacket(blocks[0]) then 1 else 0) + PacketCount(blocks[1..])
  }

  lemma {:induction false} PacketsCounted(blocks: seq<Block>, endian: Endian, interfaces: seq<Interface>)
    requires Readable(blocks, endian, interfaces)
    ensures |Packets(blocks, endian, interfaces)| <= PacketCount(blocks)
    ensures |Packets(blocks, endian, interfaces)| == PacketCount(blocks)
            <==> forall i :: 0 <= i < |blocks| && CarriesPacket(blocks[i]) ==> blocks[i].PacketBlock?
  {
    if blocks != [] {
      PacketsCounted(blocks[1..], endian, Known(blocks[0], interfaces));
      assert forall i :: 0 < i < |blocks| ==> blocks[i] == blocks[1..][i - 1];
    }
  }

  /** The reader skips all blocks but two kinds: it delivers every packet exactly when no other kind of
      block carries one. */
  lemma AllDeliveredIff(blocks: seq<Block>, endian: Endian)
    requires Readable(blocks, endian, [])
    ensures |Delivered(blocks, endian)| <= PacketCount(blocks)
    ensures |Delivered(blocks, endian)| == PacketCount(blocks)
            <==> forall i :: 0 <= i < |blocks| && CarriesPacket(blocks[i]) ==> blocks[i].PacketBlock?
  {
    DecodesEncoded(blocks, endian, []);
    PacketsCounted(blocks, endian, []);
  }

  const PLAIN_INTERFACE := InterfaceBlock(0, 0, [], false)

  /** A simple packet block with an empty packet of length zero. */
  const SIMPLE_PACKET := UnknownBlock(3, [0, 0, 0, 0])

  lemma SimplePacketIs(endian: Endian, interfaces: seq<Interface>)
    ensures Readable([SIMPLE_PACKET], endian, interfaces) && Packets([SIMPLE_PACKET], endian, interfaces) == []
    ensures PacketCount([SIMPLE_PACKET]) == 1
  {
    assert [SIMPLE_PACKET][1..] == [];
    assert Sized(SIMPLE_PACKET) && WithinLimit(SIMPLE_PACKET, endian);
    assert Readable([], endian, interfaces) && PacketCount([SIMPLE_PACKET]) == 1 + PacketCount([]);
  }

  /** A section with one interface and one packet, in a simple packet block, of which nothing is delivered. */
  lemma SimplePacketIsSkipped(endian: Endian)
    ensures var blocks := [PLAIN_INTERFACE, SIMPLE_PACKET];
            Readable(blocks, endian, []) && PacketCount(blocks) == 1 && Delivered(blocks, endian) == []
  {
    var blocks := [PLAIN_INTERFACE, SIMPLE_PACKET];
    assert blocks[1..] == [SIMPLE_PACKET];
    assert Sized(PLAIN_INTERFACE) && |Body(PLAIN_INTERFACE, endian)| == 8;
    SimplePacketIs(endian, Known(PLAIN_INTERFACE, []));
    DecodesEncoded(blocks, endian, []);
  }
}
