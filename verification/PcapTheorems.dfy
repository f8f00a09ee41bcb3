/** Decoding undoes encoding, timestamps are exact, and bursts only cut the packets into pieces. */
module PcapTheorems {
  import opened Common
  import opened PcapFormat
  import opened PcapEncoding

  // ---- Timestamps ----

  function TicksPerSecond(resolution: Resolution): (r: nat)
    ensures r > 0
  {
    match resolution
    case Decimal(power) => PowPositive(10, power); Pow(10, power)
    case Binary(power) => PowPositive(2, power); Pow(2, power)
  }

  /** The largest whole number of nanoseconds not after the timestamp, clipped to 64 bits. */
  function ExactNanoseconds(timestamp: nat, resolution: Resolution): nat {
    Saturated(timestamp * 1_000_000_000 / TicksPerSecond(resolution))
  }

  predicate Supported(resolution: Resolution) {
    match resolution case Decimal(power) => power <= 19 case Binary(power) => power <= 63
  }

  lemma {:induction false} PowSum(base: nat, m: nat, n: nat)
    ensures Pow(base, m + n) == Pow(base, m) * Pow(base, n)
  {
    if m > 0 {
      PowSum(base, m - 1, n);
      Associate(base, Pow(base, m - 1), Pow(base, n));
    }
  }

  lemma Associate(a: nat, b: nat, c: nat)
    ensures a * (b * c) == (a * b) * c
  {}

  lemma TenToNine()
    ensures Pow(10, 9) == 1_000_000_000 && Pow(10, 10) == 10_000_000_000
  {
    assert Pow(10, 2) == 100;
    PowSum(10, 2, 2);
    PowSum(10, 4, 4);
    PowSum(10, 1, 8);
    PowSum(10, 2, 8);
  }

  lemma {:induction false} PowGrows(m: nat, n: nat)
    requires m <= n
    ensures Pow(10, m) <= Pow(10, n)
  {
    if m < n {
      PowGrows(m, n - 1);
    }
  }

  /** A factor of dividend and divisor does not change the quotient. */
  lemma Cancel(t: nat, d: nat, f: nat)
    requires d > 0 && f > 0
    ensures d * f > 0 && (t * f) / (d * f) == t / d
  {
    var q, r := t / d, t % d;
    assert t == q * d + r;
    assert t * f == q * (d * f) + r * f;
    assert r * f < d * f;
    assert d * f > 0;
    Quotient(t * f, d * f, q, r * f);
  }

  lemma Quotient(n: nat, d: nat, q: nat, r: nat)
    requires d > 0 && n == q * d + r && r < d
    ensures n / d == q
  {
    var p := n / d;
    assert n == p * d + n % d;
    Monotone(p + 1, q, d);
    Monotone(q + 1, p, d);
  }

  lemma Monotone(a: nat, b: nat, d: nat)
    ensures a <= b ==> a * d <= b * d
  {}

  /** The three branches with their saturating steps all compute the exact time. */
  lemma TimestampExact(timestamp: nat, resolution: Resolution)
    requires timestamp <= U64_MAX
    ensures ToNanoseconds(timestamp, resolution) ==
              if Supported(resolution) then Ok(ExactNanoseconds(timestamp, resolution)) else Err(FormatInvalid)
  {
    TenToNine();
    match resolution
    case Decimal(power) =>
      if power <= 9 {
        CoarseExact(timestamp, power);
      } else if power <= 19 {
        FineExact(timestamp, power);
      }
    case Binary(power) =>
  }

  lemma CoarseExact(timestamp: nat, power: nat)
    requires power <= 9
    ensures Saturated(timestamp * Saturated(Pow(10, 9 - power))) == ExactNanoseconds(timestamp, Decimal(power))
  {
    var d, f := Pow(10, power), Pow(10, 9 - power);
    TenToNine();
    PowSum(10, power, 9 - power);
    PowGrows(9 - power, 9);
    PowPositive(10, power);
    assert timestamp * 1_000_000_000 == (timestamp * f) * d by { Swap(timestamp, d, f); }
    Quotient((timestamp * f) * d, d, timestamp * f, 0);
  }

  lemma Swap(t: nat, d: nat, f: nat)
    ensures t * (d * f) == (t * f) * d
  {}

  lemma FineExact(timestamp: nat, power: nat)
    requires 9 < power <= 19 && timestamp <= U64_MAX
    ensures timestamp / SaturatedPow(power - 9) == ExactNanoseconds(timestamp, Decimal(power))
  {
    var d, f := Pow(10, power - 9), Pow(10, 9);
    TenToNine();
    PowSum(10, power - 9, 9);
    PowGrows(power - 9, 10);
    PowPositive(10, power - 9);
    Cancel(timestamp, d, f);
    assert timestamp / d <= timestamp by { Shrinks(timestamp, d); }
  }

  lemma Shrinks(t: nat, d: nat)
    requires d > 0
    ensures t / d <= t
  {
    Monotone(1, d, t / d);
  }

  // ---- Blocks ----

  datatype Block =
    | InterfaceBlock(reserved: nat, snaplen: nat, options: seq<BlockOption>, closed: bool)
    | PacketBlock(id: nat, timestamp: nat, wireLength: nat, data: seq<Byte>, padding: seq<Byte>,
        options: seq<BlockOption>, closed: bool)
    | UnknownBlock(kind: nat, content: seq<Byte>)

  /** The fields fit their widths. */
  predicate Sized(block: Block) {
    match block
    case InterfaceBlock(reserved, snaplen, options, _) =>
      reserved < 0x1_0000 && snaplen < 0x1_0000_0000 && AllEncodable(options)
    case PacketBlock(id, timestamp, wireLength, data, padding, options, _) =>
      && id < 0x1_0000_0000 && timestamp <= U64_MAX && wireLength < 0x1_0000_0000 && |data| < 0x1_0000_0000
      && |padding| == Padded(|data|) - |data| && AllEncodable(options)
    case UnknownBlock(kind, content) =>
      kind < 0x1_0000_0000 && kind != 1 && kind != 6 && kind != SECTION_HEADER && |content| % 4 == 0
  }

  function Kind(block: Block): nat {
    match block
    case InterfaceBlock(_, _, _, _) => 1
    case PacketBlock(_, _, _, _, _, _, _) => 6
    case UnknownBlock(kind, _) => kind
  }

  function PacketHeader(id: nat, timestamp: nat, captured: nat, wireLength: nat, endian: Endian): (h: seq<Byte>)
    requires id < 0x1_0000_0000 && timestamp <= U64_MAX && captured < 0x1_0000_0000 && wireLength < 0x1_0000_0000
    ensures |h| == 20
  {
    E32(id, endian) + (E32(timestamp / 0x1_0000_0000, endian) + (E32(timestamp % 0x1_0000_0000, endian)
      + (E32(captured, endian) + E32(wireLength, endian))))
  }

  function Body(block: Block, endian: Endian): seq<Byte>
    requires Sized(block)
  {
    match block
    case InterfaceBlock(reserved, snaplen, options, closed) =>
      (E16(1, endian) + (E16(reserved, endian) + E32(snaplen, endian))) + EncodeOptions(options, closed, endian)
    case PacketBlock(id, timestamp, wireLength, data, padding, options, closed) =>
      PacketHeader(id, timestamp, |data|, wireLength, endian)
          + ((data + padding) + EncodeOptions(options, closed, endian))
    case UnknownBlock(_, content) => content
  }

  lemma OptionLength(option: BlockOption, endian: Endian)
    requires Encodable(option)
    ensures |EncodeOption(option, endian)| == 4 + Padded(|Value(option.content)|)
  {}

  lemma {:induction false} OptionsAligned(options: seq<BlockOption>, closed: bool, endian: Endian)
    requires AllEncodable(options)
    ensures |EncodeOptions(options, closed, endian)| % 4 == 0
  {
    if options != [] {
      assert Encodable(options[0]);
      OptionsAligned(options[1..], closed, endian);
      OptionLength(options[0], endian);
      Aligned(4, Padded(|Value(options[0].content)|));
      Aligned(|EncodeOption(options[0], endian)|, |EncodeOptions(options[1..], closed, endian)|);
    }
  }

  lemma BodyAligned(block: Block, endian: Endian)
    requires Sized(block)
    ensures |Body(block, endian)| % 4 == 0
  {
    match block
    case InterfaceBlock(_, _, options, closed) =>
      OptionsAligned(options, closed, endian);
      Aligned(8, |EncodeOptions(options, closed, endian)|);
    case PacketBlock(_, _, _, data, padding, options, closed) =>
      OptionsAligned(options, closed, endian);
      Aligned(Padded(|data|), |EncodeOptions(options, closed, endian)|);
      Aligned(20, Padded(|data|) + |EncodeOptions(options, closed, endian)|);
    case UnknownBlock(_, _) =>
  }

  lemma Aligned(m: nat, n: nat)
    requires m % 4 == 0 && n % 4 == 0
    ensures (m + n) % 4 == 0
  {}

  /** Type, total length, body, total length again. */
  function Framed(kind: nat, body: seq<Byte>, endian: Endian): seq<Byte>
    requires kind < 0x1_0000_0000 && 12 + |body| < 0x1_0000_0000
  {
    (E32(kind, endian) + E32(12 + |body|, endian)) + (body + E32(12 + |body|, endian))
  }

  predicate WithinLimit(block: Block, endian: Endian)
    requires Sized(block)
  {
    12 + |Body(block, endian)| <= MAX_BLOCK
  }

  /** Reading a framed block gives its type, its length twice, and its body. */
  lemma FrameRead(kind: nat, body: seq<Byte>, rest: seq<Byte>, endian: Endian)
    requires kind < 0x1_0000_0000 && 12 + |body| <= MAX_BLOCK && |body| % 4 == 0
    ensures var bytes, total := Framed(kind, body, endian) + rest, 12 + |body|;
            && WholeBlock(bytes, endian)
            && U32(bytes, 0, endian) == kind && U32(bytes, 4, endian) == total
            && bytes[8..total - 4] == body && bytes[total..] == rest
  {
    var total := 12 + |body|;
    var length := E32(total, endian);
    var head, tail := E32(kind, endian) + length, body + (length + rest);
    var bytes := Framed(kind, body, endian) + rest;
    FrameParts(E32(kind, endian), length, body, rest);
    assert bytes == head + tail;
    Reassociate(E32(kind, endian), length, tail);
    Front32(kind, length + tail, endian);
    Skip32(E32(kind, endian), length + tail, 0, endian);
    Front32(total, tail, endian);
    Skip32(head, tail, |body|, endian);
    Skip32(body, length + rest, 0, endian);
    Front32(total, rest, endian);
    FrameSlices(head, body, length, rest);
  }

  lemma FrameParts(kind: seq<Byte>, length: seq<Byte>, body: seq<Byte>, rest: seq<Byte>)
    ensures ((kind + length) + (body + length)) + rest == (kind + length) + (body + (length + rest))
  {}

  lemma FrameSlices(head: seq<Byte>, body: seq<Byte>, length: seq<Byte>, rest: seq<Byte>)
    ensures var bytes := head + (body + (length + rest));
            && bytes[|head|..|head| + |body|] == body
            && bytes[|head| + |body| + |length|..] == rest
  {}

  // ---- Meaning ----

  function InterfaceOf(block: Block): Interface
    requires block.InterfaceBlock?
  {
    Interface(1, block.snaplen, LastResolution(block.options, Decimal(6)))
  }

  /** What the source accepts of a packet: a known interface with a usable clock, and lengths in order. */
  predicate Acceptable(block: Block, interfaces: seq<Interface>) {
    block.PacketBlock? ==>
      && block.id < |interfaces|
      && interfaces[block.id].linkType == 1
      && Supported(interfaces[block.id].resolution)
      && LengthsFit(|block.data|, block.wireLength, interfaces[block.id].snaplen)
  }

  function PacketOf(block: Block, interfaces: seq<Interface>): Packet
    requires block.PacketBlock? && block.id < |interfaces|
  {
    Packet(block.data, ExactNanoseconds(block.timestamp, interfaces[block.id].resolution), block.wireLength,
           LastQueue(block.options, DefaultQueue(block.id)))
  }

  lemma InterfaceRead(block: Block, endian: Endian)
    requires Sized(block) && block.InterfaceBlock?
    ensures ParseInterface(Body(block, endian), endian) == Ok(InterfaceOf(block))
  {
    var options := EncodeOptions(block.options, block.closed, endian);
    var link, reserved, snaplen := E16(1, endian), E16(block.reserved, endian), E32(block.snaplen, endian);
    assert (link + (reserved + snaplen)) + options == link + (reserved + (snaplen + options));
    Front16(1, reserved + (snaplen + options), endian);
    Skip32(link, reserved + (snaplen + options), 2, endian);
    Skip32(reserved, snaplen + options, 0, endian);
    Front32(block.snaplen, options, endian);
    CutConcat(link + (reserved + snaplen), options);
    FoldEncoded(block.options, block.closed, endian, Decimal(6), VisitInterface);
    ResolutionRead(block.options, Decimal(6));
  }

  lemma HeaderRead(id: nat, timestamp: nat, captured: nat, wireLength: nat, rest: seq<Byte>, endian: Endian)
    requires id < 0x1_0000_0000 && timestamp <= U64_MAX && captured < 0x1_0000_0000 && wireLength < 0x1_0000_0000
    ensures var bytes := PacketHeader(id, timestamp, captured, wireLength, endian) + rest;
            && U32(bytes, 0, endian) == id
            && 0x1_0000_0000 * U32(bytes, 4, endian) + U32(bytes, 8, endian) == timestamp
            && U32(bytes, 12, endian) == captured && U32(bytes, 16, endian) == wireLength
  {
    FiveFields(id, timestamp / 0x1_0000_0000, timestamp % 0x1_0000_0000, captured, wireLength, rest, endian);
  }

  lemma FiveFields(a: nat, b: nat, c: nat, d: nat, e: nat, rest: seq<Byte>, endian: Endian)
    requires a < 0x1_0000_0000 && b < 0x1_0000_0000 && c < 0x1_0000_0000 && d < 0x1_0000_0000 && e < 0x1_0000_0000
    ensures var bytes := (E32(a, endian) + (E32(b, endian) + (E32(c, endian) + (E32(d, endian) + E32(e, endian)))))
        + rest;
            && U32(bytes, 0, endian) == a && U32(bytes, 4, endian) == b && U32(bytes, 8, endian) == c
            && U32(bytes, 12, endian) == d && U32(bytes, 16, endian) == e
  {
    var s5 := E32(e, endian) + rest;
    var s4 := E32(d, endian) + s5;
    var s3 := E32(c, endian) + s4;
    var s2 := E32(b, endian) + s3;
    Nested5(E32(a, endian), E32(b, endian), E32(c, endian), E32(d, endian), E32(e, endian), rest);
    Front32(a, s2, endian);
    Front32(b, s3, endian);
    Front32(c, s4, endian);
    Front32(d, s5, endian);
    Front32(e, rest, endian);
    Skip32(E32(d, endian), s5, 0, endian);
    Skip32(E32(c, endian), s4, 0, endian);
    Skip32(E32(c, endian), s4, 4, endian);
    Skip32(E32(b, endian), s3, 0, endian);
    Skip32(E32(b, endian), s3, 4, endian);
    Skip32(E32(b, endian), s3, 8, endian);
    Skip32(E32(a, endian), s2, 0, endian);
    Skip32(E32(a, endian), s2, 4, endian);
    Skip32(E32(a, endian), s2, 8, endian);
    Skip32(E32(a, endian), s2, 12, endian);
  }

  lemma Nested5<T>(a: seq<T>, b: seq<T>, c: seq<T>, d: seq<T>, e: seq<T>, rest: seq<T>)
    ensures (a + (b + (c + (d + e)))) + rest == a + (b + (c + (d + (e + rest))))
  {
    Reassociate(d, e, rest);
    Reassociate(c, d + e, rest);
    Reassociate(b, c + (d + e), rest);
    Reassociate(a, b + (c + (d + e)), rest);
  }

  /** A body whose header fields are these is read as a packet of them. */
  lemma HeaderAccepted(
      body: seq<Byte>, endian: Endian, interfaces: seq<Interface>, id: nat, timestamp: nat, captured: nat,
      wireLength: nat)
    requires |body| >= 20 + Padded(captured)
    requires U32(body, 0, endian) == id && 0x1_0000_0000 * U32(body, 4, endian) + U32(body, 8, endian) == timestamp
    requires U32(body, 12, endian) == captured && U32(body, 16, endian) == wireLength
    requires id < |interfaces| && interfaces[id].linkType == 1
    requires LengthsFit(captured, wireLength, interfaces[id].snaplen)
    ensures ParsePacket(body, endian, interfaces)
        == PacketAt(body, endian, id, interfaces[id].resolution, timestamp, captured, wireLength)
  {}

  lemma PartsAccepted(body: seq<Byte>, data: seq<Byte>, options: seq<Byte>, endian: Endian,
      id: nat, resolution: Resolution, timestamp: nat, wireLength: nat, queueId: nat, time: nat)
    requires 20 + Padded(|data|) <= |body| && body[20..20 + |data|] == data && body[20 + Padded(|data|)..] == options
    requires FoldOptions(options, endian, DefaultQueue(id), VisitPacket) == Ok(queueId)
    requires ToNanoseconds(timestamp, resolution) == Ok(time)
    ensures PacketAt(body, endian, id, resolution, timestamp, |data|, wireLength)
        == Ok(Packet(data, time, wireLength, queueId))
  {}

  lemma PacketRead(block: Block, endian: Endian, interfaces: seq<Interface>)
    requires Sized(block) && block.PacketBlock? && Acceptable(block, interfaces)
    ensures ParsePacket(Body(block, endian), endian, interfaces) == Ok(PacketOf(block, interfaces))
  {
    var PacketBlock(id, timestamp, wireLength, data, padding, options, closed) := block;
    var resolution := interfaces[id].resolution;
    var header := PacketHeader(id, timestamp, |data|, wireLength, endian);
    var encoded := EncodeOptions(options, closed, endian);
    OptionsRead(options, closed, endian, id);
    TimestampExact(timestamp, resolution);
    PacketSlices(header, data, padding, encoded);
    PartsAccepted(Body(block, endian), data, encoded, endian, id, resolution, timestamp, wireLength,
      LastQueue(options, DefaultQueue(id)), ExactNanoseconds(timestamp, resolution));
    HeaderRead(id, timestamp, |data|, wireLength, (data + padding) + encoded, endian);
    HeaderAccepted(Body(block, endian), endian, interfaces, id, timestamp, |data|, wireLength);
  }

  lemma OptionsRead(options: seq<BlockOption>, closed: bool, endian: Endian, id: nat)
    requires AllEncodable(options)
    ensures FoldOptions(EncodeOptions(options, closed, endian), endian, DefaultQueue(id), VisitPacket)
        == Ok(LastQueue(options, DefaultQueue(id)))
  {
    FoldEncoded(options, closed, endian, DefaultQueue(id), VisitPacket);
    QueueRead(options, DefaultQueue(id));
  }

  lemma PacketSlices(header: seq<Byte>, data: seq<Byte>, padding: seq<Byte>, options: seq<Byte>)
    ensures var body := header + ((data + padding) + options);
            && body[|header|..|header| + |data|] == data
            && body[|header| + |data| + |padding|..] == options
  {}

  // ---- Whole captures ----

  datatype Capture = Capture(packets: seq<Packet>, ending: Next)

  /** Everything the reader yields, until the end or the first error. */
  function ReadAll(format: Format, rest: seq<Byte>, interfaces: seq<Interface>): (c: Capture)
    ensures !c.ending.Got?
    decreases |rest|
  {
    var next := NextRecord(format, rest, interfaces);
    if !next.Got? then Capture([], next)
    else
      RecordConsumes(format, rest, interfaces);
      var later := ReadAll(format, next.rest, next.interfaces);
      Capture([next.packet] + later.packets, later.ending)
  }

  /** The interfaces a packet may refer to are those described before it. */
  predicate Readable(blocks: seq<Block>, endian: Endian, interfaces: seq<Interface>) {
    blocks != [] ==>
      && Sized(blocks[0]) && WithinLimit(blocks[0], endian) && Acceptable(blocks[0], interfaces)
      && Readable(blocks[1..], endian, Known(blocks[0], interfaces))
  }

  function Known(block: Block, interfaces: seq<Interface>): seq<Interface> {
    if block.InterfaceBlock? then interfaces + [InterfaceOf(block)] else interfaces
  }

  function Encode(blocks: seq<Block>, endian: Endian, interfaces: seq<Interface>): seq<Byte>
    requires Readable(blocks, endian, interfaces)
  {
    if blocks == [] then []
    else
      var later := Encode(blocks[1..], endian, Known(blocks[0], interfaces));
      Framed(Kind(blocks[0]), Body(blocks[0], endian), endian) + later
  }

  function Packets(blocks: seq<Block>, endian: Endian, interfaces: seq<Interface>): seq<Packet>
    requires Readable(blocks, endian, interfaces)
  {
    if blocks == [] then []
    else
      var later := Packets(blocks[1..], endian, Known(blocks[0], interfaces));
      if blocks[0].PacketBlock? then [PacketOf(blocks[0], interfaces)] + later else later
  }

  /** The reader on one encoded block and what follows. */
  lemma BlockRead(block: Block, rest: seq<Byte>, endian: Endian, interfaces: seq<Interface>)
    requires Sized(block) && WithinLimit(block, endian) && Acceptable(block, interfaces)
    ensures var bytes := Framed(Kind(block), Body(block, endian), endian) + rest;
            NextBlock(bytes, endian, interfaces) ==
              if block.PacketBlock? then Got(PacketOf(block, interfaces), rest, interfaces)
              else NextBlock(rest, endian, Known(block, interfaces))
  {
    BodyAligned(block, endian);
    FrameRead(Kind(block), Body(block, endian), rest, endian);
    var bytes := Framed(Kind(block), Body(block, endian), endian) + rest;
    match block
    case InterfaceBlock(_, _, _, _) =>
      InterfaceRead(block, endian);
      NextInterface(bytes, Body(block, endian), rest, endian, interfaces, InterfaceOf(block));
    case PacketBlock(_, _, _, _, _, _, _) =>
      PacketRead(block, endian, interfaces);
      NextPacket(bytes, Body(block, endian), rest, endian, interfaces, PacketOf(block, interfaces));
    case UnknownBlock(_, _) =>
  }

  /** The bytes start with a block that has this type and body. */
  ghost predicate StartsWith(bytes: seq<Byte>, kind: nat, body: seq<Byte>, rest: seq<Byte>, endian: Endian) {
    && WholeBlock(bytes, endian)
    && U32(bytes, 0, endian) == kind && U32(bytes, 4, endian) == 12 + |body|
    && bytes[8..8 + |body|] == body && bytes[12 + |body|..] == rest
  }

  lemma NextInterface(
      bytes: seq<Byte>, body: seq<Byte>, rest: seq<Byte>, endian: Endian, interfaces: seq<Interface>, i: Interface)
    requires StartsWith(bytes, 1, body, rest, endian) && ParseInterface(body, endian) == Ok(i)
    ensures NextBlock(bytes, endian, interfaces) == NextBlock(rest, endian, interfaces + [i])
  {}

  lemma NextPacket(
      bytes: seq<Byte>, body: seq<Byte>, rest: seq<Byte>, endian: Endian, interfaces: seq<Interface>, p: Packet)
    requires StartsWith(bytes, 6, body, rest, endian) && ParsePacket(body, endian, interfaces) == Ok(p)
    ensures NextBlock(bytes, endian, interfaces) == Got(p, rest, interfaces)
  {}

  /** Decoding an encoded section body yields exactly its packets, in order, and then the end. */
  lemma {:induction false} DecodesEncoded(blocks: seq<Block>, endian: Endian, interfaces: seq<Interface>)
    requires Readable(blocks, endian, interfaces)
    ensures ReadAll(Ng(endian), Encode(blocks, endian, interfaces), interfaces) ==
              Capture(Packets(blocks, endian, interfaces), End)
  {
    if blocks != [] {
      var rest := Encode(blocks[1..], endian, Known(blocks[0], interfaces));
      BlockRead(blocks[0], rest, endian, interfaces);
      DecodesEncoded(blocks[1..], endian, Known(blocks[0], interfaces));
    }
  }

  // ---- Classic records ----

  datatype Record = Record(seconds: nat, fraction: nat, wireLength: nat, data: seq<Byte>)

  predicate RecordFits(record: Record, unit: Unit, snaplen: nat) {
    && record.seconds < 0x1_0000_0000 && FractionFits(record.fraction, unit)
    && |record.data| <= MAX_BLOCK && |record.data| <= snaplen && |record.data| <= record.wireLength < 0x1_0000_0000
  }

  predicate RecordsFit(records: seq<Record>, unit: Unit, snaplen: nat) {
    forall i :: 0 <= i < |records| ==> RecordFits(records[i], unit, snaplen)
  }

  function EncodeRecord(record: Record, unit: Unit, snaplen: nat, endian: Endian): seq<Byte>
    requires RecordFits(record, unit, snaplen)
  {
    (E32(record.seconds, endian) + (E32(record.fraction, endian)
        + (E32(|record.data|, endian) + E32(record.wireLength, endian))))
      + record.data
  }

  function EncodeRecords(records: seq<Record>, unit: Unit, snaplen: nat, endian: Endian): seq<Byte>
    requires RecordsFit(records, unit, snaplen)
  {
    if records == [] then []
    else EncodeRecord(records[0], unit, snaplen, endian) + EncodeRecords(records[1..], unit, snaplen, endian)
  }

  function RecordPacket(record: Record, unit: Unit): Packet {
    Packet(record.data, record.seconds * 1_000_000_000
        + (if unit.Microseconds? then record.fraction * 1_000 else record.fraction),
           record.wireLength, 0)
  }

  function RecordPackets(records: seq<Record>, unit: Unit): seq<Packet> {
    if records == [] then [] else [RecordPacket(records[0], unit)] + RecordPackets(records[1..], unit)
  }

  lemma FourFields(a: nat, b: nat, c: nat, d: nat, rest: seq<Byte>, endian: Endian)
    requires a < 0x1_0000_0000 && b < 0x1_0000_0000 && c < 0x1_0000_0000 && d < 0x1_0000_0000
    ensures var bytes := (E32(a, endian) + (E32(b, endian) + (E32(c, endian) + E32(d, endian)))) + rest;
            && U32(bytes, 0, endian) == a && U32(bytes, 4, endian) == b
            && U32(bytes, 8, endian) == c && U32(bytes, 12, endian) == d
  {
    var s4 := E32(d, endian) + rest;
    var s3 := E32(c, endian) + s4;
    var s2 := E32(b, endian) + s3;
    Nested4(E32(a, endian), E32(b, endian), E32(c, endian), E32(d, endian), rest);
    Front32(a, s2, endian);
    Front32(b, s3, endian);
    Front32(c, s4, endian);
    Front32(d, rest, endian);
    Skip32(E32(c, endian), s4, 0, endian);
    Skip32(E32(b, endian), s3, 0, endian);
    Skip32(E32(b, endian), s3, 4, endian);
    Skip32(E32(a, endian), s2, 0, endian);
    Skip32(E32(a, endian), s2, 4, endian);
    Skip32(E32(a, endian), s2, 8, endian);
  }

  lemma Nested4<T>(a: seq<T>, b: seq<T>, c: seq<T>, d: seq<T>, rest: seq<T>)
    ensures (a + (b + (c + d))) + rest == a + (b + (c + (d + rest)))
  {
    Reassociate(c, d, rest);
    Reassociate(b, c + d, rest);
    Reassociate(a, b + (c + d), rest);
  }

  lemma ClassicAccepted(
      bytes: seq<Byte>, header: seq<Byte>, data: seq<Byte>, rest: seq<Byte>, endian: Endian, unit: Unit, snaplen: nat,
      record: Record)
    requires bytes == header + (data + rest) && |header| == 16 && data == record.data
    requires RecordFits(record, unit, snaplen)
    requires U32(bytes, 0, endian) == record.seconds && U32(bytes, 4, endian) == record.fraction
    requires U32(bytes, 8, endian) == |data| && U32(bytes, 12, endian) == record.wireLength
    ensures NextClassic(bytes, endian, unit, snaplen) == Got(RecordPacket(record, unit), rest, [])
  {
    CutConcat(header + data, rest);
    Reassociate(header, data, rest);
    assert bytes[16..16 + |data|] == data;
  }

  lemma RecordRead(record: Record, rest: seq<Byte>, endian: Endian, unit: Unit, snaplen: nat)
    requires RecordFits(record, unit, snaplen)
    ensures NextClassic(EncodeRecord(record, unit, snaplen, endian) + rest, endian, unit, snaplen)
        == Got(RecordPacket(record, unit), rest, [])
  {
    var header := E32(record.seconds, endian)
        + (E32(record.fraction, endian) + (E32(|record.data|, endian) + E32(record.wireLength, endian)));
    Reassociate(header, record.data, rest);
    FourFields(record.seconds, record.fraction, |record.data|, record.wireLength, record.data + rest, endian);
    ClassicAccepted(header + (record.data + rest), header, record.data, rest, endian, unit, snaplen, record);
  }

  /** Decoding encoded classic records yields exactly their packets, in order, with exact times. */
  lemma {:induction false} DecodesRecords(
      records: seq<Record>, endian: Endian, unit: Unit, snaplen: nat, interfaces: seq<Interface>)
    requires RecordsFit(records, unit, snaplen)
    ensures ReadAll(Classic(endian, unit, snaplen), EncodeRecords(records, unit, snaplen, endian), interfaces) ==
              Capture(RecordPackets(records, unit), End)
  {
    if records != [] {
      RecordRead(records[0], EncodeRecords(records[1..], unit, snaplen, endian), endian, unit, snaplen);
      DecodesRecords(records[1..], endian, unit, snaplen, []);
    }
  }

  // ---- Whole files ----

  /** A section header of version 1 with any options, taken as whole words. */
  predicate SectionFits(minor: nat, length: seq<Byte>, options: seq<Byte>) {
    minor < 0x1_0000 && |length| == 8 && |options| % 4 == 0 && 28 + |options| <= MAX_BLOCK
  }

  function EncodeSection(minor: nat, length: seq<Byte>, options: seq<Byte>, endian: Endian): seq<Byte>
    requires SectionFits(minor, length, options)
  {
    var total := E32(28 + |options|, endian);
    MAGIC_SECTION + (total + ((if endian.Little? then ORDER_LITTLE else ORDER_BIG)
        + (E16(1, endian) + (E16(minor, endian) + (length + (options + total))))))
  }

  lemma SectionOpens(minor: nat, length: seq<Byte>, options: seq<Byte>, endian: Endian, rest: seq<Byte>)
    requires SectionFits(minor, length, options)
    ensures Open(EncodeSection(minor, length, options, endian) + rest) == Ok(Opened(Ng(endian), rest))
  {
    var total, order := E32(28 + |options|, endian), if endian.Little? then ORDER_LITTLE else ORDER_BIG;
    SectionRegroup(MAGIC_SECTION, total, order, E16(1, endian), E16(minor, endian), length, options, rest);
    MagicOpens(total + (order + (E16(1, endian) + (E16(minor, endian) + (length + (options + (total + rest)))))));
    FieldsOpen(minor, length, options, endian, rest, order);
  }

  lemma MagicOpens(file: seq<Byte>)
    ensures Open(MAGIC_SECTION + file) == OpenSection(file)
  {
    CutConcat(MAGIC_SECTION, file);
  }

  lemma FieldsOpen(minor: nat, length: seq<Byte>, options: seq<Byte>, endian: Endian, rest: seq<Byte>, order: seq<Byte>)
    requires SectionFits(minor, length, options) && order == if endian.Little? then ORDER_LITTLE else ORDER_BIG
    ensures var total := E32(28 + |options|, endian);
            OpenSection(total + (order
                + (E16(1, endian) + (E16(minor, endian) + (length + (options + (total + rest)))))))
              == Ok(Opened(Ng(endian), rest))
  {
    var n := 28 + |options|;
    var total, major, version := E32(n, endian), E16(1, endian), E16(minor, endian);
    var tail := total + rest;
    var after := version + (length + (options + tail));
    Front32(n, order + (major + after), endian);
    Skip16(total, order + (major + after), 4, endian);
    Skip16(order, major + after, 0, endian);
    Front16(1, after, endian);
    OrderAt(total, order, major + after);
    TrailerAt(total, order, major, version, length, options, tail, n, rest, endian);
    OrderedOpens(total + (order + (major + after)), n, rest, endian);
  }

  lemma SectionRegroup(
      magic: seq<Byte>, total: seq<Byte>, order: seq<Byte>, major: seq<Byte>, version: seq<Byte>, length: seq<Byte>,
      options: seq<Byte>, rest: seq<Byte>)
    ensures (magic + (total + (order + (major + (version + (length + (options + total))))))) + rest
         == magic + (total + (order + (major + (version + (length + (options + (total + rest)))))))
  {
    Reassociate(options, total, rest);
    Reassociate(length, options + total, rest);
    Reassociate(version, length + (options + total), rest);
    Reassociate(major, version + (length + (options + total)), rest);
    Reassociate(order, major + (version + (length + (options + total))), rest);
    Reassociate(total, order + (major + (version + (length + (options + total)))), rest);
    Reassociate(magic, total + (order + (major + (version + (length + (options + total))))), rest);
  }

  lemma OrderAt(total: seq<Byte>, order: seq<Byte>, rest: seq<Byte>)
    requires |total| == 4 && |order| == 4
    ensures (total + (order + rest))[4..8] == order
  {}

  /** The second copy of the length, and what follows it. */
  lemma TrailerAt(
      total: seq<Byte>, order: seq<Byte>, major: seq<Byte>, version: seq<Byte>, length: seq<Byte>, options: seq<Byte>,
      tail: seq<Byte>, n: nat, rest: seq<Byte>, endian: Endian)
    requires n < 0x1_0000_0000 && total == E32(n, endian) && tail == total + rest
    requires |order| == 4 && |major| == 2 && |version| == 2 && |length| == 8 && n == 28 + |options|
    ensures var file := total + (order + (major + (version + (length + (options + tail)))));
            |file| >= n - 4 && U32(file, n - 8, endian) == n && file[n - 4..] == rest
  {
    var file := total + (order + (major + (version + (length + (options + tail)))));
    var front := total + (order + (major + (version + (length + options))));
    Nested6(total, order, major, version, length, options, tail);
    assert file == front + tail && |front| == n - 8;
    Skip32(front, tail, 0, endian);
    Front32(n, rest, endian);
    Reassociate(front, total, rest);
    CutConcat(front + total, rest);
  }

  lemma Nested6<T>(a: seq<T>, b: seq<T>, c: seq<T>, d: seq<T>, e: seq<T>, f: seq<T>, rest: seq<T>)
    ensures (a + (b + (c + (d + (e + f))))) + rest == a + (b + (c + (d + (e + (f + rest)))))
  {
    Nested5(b, c, d, e, f, rest);
    Reassociate(a, b + (c + (d + (e + f))), rest);
  }

  lemma OrderedOpens(file: seq<Byte>, n: nat, rest: seq<Byte>, endian: Endian)
    requires 28 <= n <= MAX_BLOCK && n % 4 == 0 && n - 4 <= |file|
    requires U32(file, 0, endian) == n && U16(file, 8, endian) == 1 && U32(file, n - 8, endian) == n
    requires file[n - 4..] == rest
    requires file[4..8] == if endian.Little? then ORDER_LITTLE else ORDER_BIG
    ensures OpenSection(file) == Ok(Opened(Ng(endian), rest))
  {
    assert ORDER_LITTLE[0] != ORDER_BIG[0];
  }

  /** Everything the source yields for a file, or why it does not open. */
  function ReadFile(file: seq<Byte>): Result<Capture> {
    var start := Open(file);
    if start.Err? then Err(start.error) else Ok(ReadAll(start.value.format, start.value.rest, []))
  }

  /** A PCAPNG file of one section decodes to the packets of its blocks. */
  lemma DecodesFile(minor: nat, length: seq<Byte>, options: seq<Byte>, blocks: seq<Block>, endian: Endian)
    requires SectionFits(minor, length, options) && Readable(blocks, endian, [])
    ensures ReadFile(EncodeSection(minor, length, options, endian) + Encode(blocks, endian, []))
              == Ok(Capture(Packets(blocks, endian, []), End))
  {
    SectionOpens(minor, length, options, endian, Encode(blocks, endian, []));
    DecodesEncoded(blocks, endian, []);
  }
}
