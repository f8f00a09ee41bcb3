/** The streaming capture source: a reader that may return short, interrupted or failed reads, and a
    burst interface over it. */
module PcapSource {
  import opened Common
  import opened PcapFormat
  import opened PcapTheorems

  // ---- The file ----

  /** What the operating system does with one read: a read that gives bytes gives at least one while
      there are any. */
  datatype ReadEvent = Gives(most: nat) | Interrupted | Fails

  datatype ReadOutcome = Bytes(bytes: seq<Byte>) | WasInterrupted | HasFailed

  ghost predicate NoFailure(plan: seq<ReadEvent>) {
    forall i :: 0 <= i < |plan| ==> !plan[i].Fails?
  }

  class FileReader {
    var rest: seq<Byte>
    /** The events of the coming reads; once they are used up every read gives all it can. */
    var plan: seq<ReadEvent>

    constructor (content: seq<Byte>, events: seq<ReadEvent>)
      ensures rest == content && plan == events
    {
      rest, plan := content, events;
    }

    method Read(most: nat) returns (r: ReadOutcome)
      requires most > 0
      modifies this
      ensures r.Bytes? ==>
                && |r.bytes| <= most && (r.bytes == [] <==> old(rest) == [])
                && |r.bytes| <= |old(rest)| && r.bytes == old(rest)[..|r.bytes|] && rest == old(rest)[|r.bytes|..]
      ensures !r.Bytes? ==> rest == old(rest) && old(plan) != []
      ensures plan == if old(plan) == [] then [] else old(plan)[1..]
      ensures r.HasFailed? ==> old(plan) != [] && old(plan)[0].Fails?
      ensures NoFailure(old(plan)) ==> NoFailure(plan)
    {
      var k := Min(most, |rest|);
      if plan != [] {
        var event := plan[0];
        plan := plan[1..];
        if event.Interrupted? {
          return WasInterrupted;
        }
        if event.Fails? {
          return HasFailed;
        }
        k := Min(k, if event.most == 0 then 1 else event.most);
      }
      r := Bytes(rest[..k]);
      rest := rest[k..];
    }

    /** `read_exact_or_eof`: whatever the reads return, all the bytes, or none at the end of the file. */
    method ReadExactOrEof(n: nat) returns (r: Result<Option<seq<Byte>>>)
      requires n > 0
      modifies this
      ensures NoFailure(old(plan)) ==> NoFailure(plan) && r != Err(ReadFailed)
      ensures r != Err(ReadFailed) ==>
                r == if old(rest) == [] then Ok(None)
                     else if |old(rest)| < n then Err(FormatInvalid)
                     else Ok(Some(old(rest)[..n]))
      ensures r.Ok? ==> rest == if old(rest) == [] then [] else old(rest)[n..]
      ensures r == Err(FormatInvalid) ==> rest == []
    {
      ghost var all := rest;
      var bytes := [];
      while |bytes| < n
        invariant |bytes| <= n && all == bytes + rest
        invariant NoFailure(old(plan)) ==> NoFailure(plan)
        decreases n - |bytes|, |plan|
      {
        var read := this.Read(n - |bytes|);
        match read
        case Bytes(b) =>
          if b == [] {
            assert all == bytes;
            if bytes == [] {
              return Ok(None);
            }
            return Err(FormatInvalid);
          }
          bytes := bytes + b;
        case WasInterrupted =>
        case HasFailed => return Err(ReadFailed);
      }
      assert bytes == all[..n] && rest == all[n..];
      return Ok(Some(bytes));
    }

    /** `read_exact`: the end of the file is a failure. */
    method ReadExact(n: nat) returns (r: Result<seq<Byte>>)
      modifies this
      ensures NoFailure(old(plan)) ==> NoFailure(plan) && (r.Ok? <==> n <= |old(rest)|) && (r.Err? ==> rest == [])
      ensures match r
              case Ok(bytes) => n <= |old(rest)| && bytes == old(rest)[..n] && rest == old(rest)[n..]
              case Err(e) => e == ReadFailed
    {
      ghost var all := rest;
      var bytes := [];
      while |bytes| < n
        invariant |bytes| <= n && all == bytes + rest
        invariant NoFailure(old(plan)) ==> NoFailure(plan)
        decreases n - |bytes|, |plan|
      {
        var read := this.Read(n - |bytes|);
        match read
        case Bytes(b) =>
          if b == [] {
            assert all == bytes;
            return Err(ReadFailed);
          }
          bytes := bytes + b;
        case WasInterrupted =>
        case HasFailed => return Err(ReadFailed);
      }
      assert bytes == all[..n] && rest == all[n..];
      return Ok(bytes);
    }
  }

  // ---- Block parsers, as methods over the option loop ----

  method ParseInterfaceDescription(body: seq<Byte>, endian: Endian) returns (r: Result<Interface>)
    ensures r == ParseInterface(body, endian)
  {
    if |body| < 8 {
      return Err(FormatInvalid);
    }
    var linkType := U16(body, 0, endian);
    if linkType != 1 {
      return Err(FormatInvalid);
    }
    var snaplen := U32(body, 4, endian);
    var resolution := ParseOptions(body[8..], endian, Decimal(6), VisitInterface);
    return if resolution.Err? then Err(resolution.error) else Ok(Interface(linkType, snaplen, resolution.value));
  }

  method ParseEnhancedPacket(body: seq<Byte>, endian: Endian, interfaces: seq<Interface>) returns (r: Result<Packet>)
    ensures r == ParsePacket(body, endian, interfaces)
  {
    if |body| < 20 {
      return Err(FormatInvalid);
    }
    var id := U32(body, 0, endian);
    if id >= |interfaces| || interfaces[id].linkType != 1 {
      return Err(FormatInvalid);
    }
    var timestamp := 0x1_0000_0000 * U32(body, 4, endian) + U32(body, 8, endian);
    var captured, wireLength := U32(body, 12, endian), U32(body, 16, endian);
    if !LengthsFit(captured, wireLength, interfaces[id].snaplen) {
      return Err(FormatInvalid);
    }
    var optionsOffset := 20 + Padded(captured);
    if optionsOffset > |body| || 20 + captured > |body| {
      return Err(FormatInvalid);
    }
    r := ParsePacketAt(body, endian, id, interfaces[id].resolution, timestamp, captured, wireLength);
  }

  method ParsePacketAt(
      body: seq<Byte>, endian: Endian, id: nat, resolution: Resolution, timestamp: nat, captured: nat,
      wireLength: nat)
    returns (r: Result<Packet>)
    requires 20 + Padded(captured) <= |body|
    ensures r == PacketAt(body, endian, id, resolution, timestamp, captured, wireLength)
  {
    var queue := ParseOptions(body[20 + Padded(captured)..], endian, DefaultQueue(id), VisitPacket);
    if queue.Err? {
      return Err(queue.error);
    }
    var time := ToNanoseconds(timestamp, resolution);
    return if time.Err? then Err(time.error)
    else Ok(Packet(body[20..20 + captured], time.value, wireLength, queue.value));
  }

  // ---- The source ----

  datatype RawBlock = RawBlock(kind: nat, body: seq<Byte>)

  class CaptureSource {
    const reader: FileReader
    const format: Format
    var interfaces: seq<Interface>
    var packetBuffer: seq<Byte>
    var burstSize: nat
    var exhausted: bool
    /** The packets handed to the consumer. */
    var delivered: seq<Packet>

    /** What the source has still to give. */
    ghost function Remaining(): Capture
      reads this, reader
    {
      ReadAll(format, reader.rest, interfaces)
    }

    ghost predicate Valid()
      reads this, reader
    {
      && 1 <= burstSize <= 4096
      && (exhausted ==> Remaining() == Capture([], End))
    }

    /** The state right after `open`, for a file whose header is in order. */
    constructor (file: FileReader, f: Format)
      ensures Valid() && !exhausted && delivered == [] && interfaces == [] && burstSize == 64
      ensures reader == file && format == f && Remaining() == ReadAll(f, file.rest, [])
    {
      reader, format := file, f;
      interfaces, packetBuffer, burstSize, exhausted, delivered := [], [], 64, false, [];
    }

    /** The result and the new state after reading what comes next. */
    ghost predicate Yields(next: Next, r: Result<Option<Packet>>)
      reads this, reader
    {
      match next
      case End => r == Ok(None) && reader.rest == []
      case Got(p, rest, known) =>
        r == Ok(Some(p)) && reader.rest == rest && packetBuffer == p.bytes && (format.Ng? ==> interfaces == known)
      case Bad(e, rest, known) => r == Err(e) && reader.rest == rest && (format.Ng? ==> interfaces == known)
    }

    method SetBurstSize(size: nat) returns (ok: bool)
      requires Valid()
      modifies this`burstSize
      ensures Valid() && Remaining() == old(Remaining())
      ensures ok <==> 1 <= size <= 4096
      ensures burstSize == if ok then size else old(burstSize)
    {
      ok := 1 <= size <= 4096;
      if ok {
        burstSize := size;
      }
    }

    /** One block: its type and body. */
    method ReadBlock(endian: Endian) returns (r: Result<Option<RawBlock>>)
      modifies reader
      ensures NoFailure(old(reader.plan)) ==> NoFailure(reader.plan)
      ensures (r == Err(ReadFailed) && !NoFailure(old(reader.plan))) || BlockYields(old(reader.rest), endian, r)
    {
      ghost var rest := reader.rest;
      var header := reader.ReadExactOrEof(8);
      if header.Err? {
        return Err(header.error);
      }
      if header.value.None? {
        return Ok(None);
      }
      var kind, total := U32(header.value.value, 0, endian), U32(header.value.value, 4, endian);
      assert kind == U32(rest, 0, endian) && total == U32(rest, 4, endian);
      if !(12 <= total <= MAX_BLOCK) || total % 4 != 0 {
        return Err(FormatInvalid);
      }
      var block := reader.ReadExact(total - 8);
      if block.Err? {
        return Err(block.error);
      }
      BlockSlices(rest, total, block.value, reader.rest, endian);
      if U32(block.value, total - 12, endian) != total {
        return Err(FormatInvalid);
      }
      return Ok(Some(RawBlock(kind, block.value[..total - 12])));
    }

    ghost predicate BlockYields(rest: seq<Byte>, endian: Endian, r: Result<Option<RawBlock>>)
      reads reader
    {
      if rest == [] then r == Ok(None) && reader.rest == []
      else if !WholeBlock(rest, endian) then r == Err(BlockError(rest, endian)) && reader.rest
          == BehindBlock(rest, endian)
      else
        var total := U32(rest, 4, endian);
        r == Ok(Some(RawBlock(U32(rest, 0, endian), rest[8..total - 4]))) && reader.rest == rest[total..]
    }

    /** The loop over blocks up to the next packet. */
    method NextNgRecord(endian: Endian) returns (r: Result<Option<Packet>>)
      requires format == Ng(endian)
      modifies this`interfaces, this`packetBuffer, reader
      ensures NoFailure(old(reader.plan)) ==> NoFailure(reader.plan)
      ensures (r == Err(ReadFailed) && !NoFailure(old(reader.plan))) || Yields(NextBlock(old(reader.rest), endian,
          old(interfaces)), r)
    {
      ghost var expected := NextBlock(reader.rest, endian, interfaces);
      while true
        invariant NoFailure(old(reader.plan)) ==> NoFailure(reader.plan)
        invariant expected == NextBlock(reader.rest, endian, interfaces)
        decreases |reader.rest|
      {
        ghost var rest := reader.rest;
        var block := ReadBlock(endian);
        if block.Err? {
          return Err(block.error);
        }
        if block.value.None? {
          return Ok(None);
        }
        assert |reader.rest| + 12 <= |rest|;
        var RawBlock(kind, body) := block.value.value;
        if kind == 1 {
          var i := ParseInterfaceDescription(body, endian);
          if i.Err? {
            return Err(i.error);
          }
          interfaces := interfaces + [i.value];
        } else if kind == 6 {
          var p := ParseEnhancedPacket(body, endian, interfaces);
          if p.Err? {
            return Err(p.error);
          }
          packetBuffer := p.value.bytes;
          return Ok(Some(p.value));
        } else if kind == SECTION_HEADER {
          return Err(FormatInvalid);
        }
      }
    }

    /** One classic record. */
    method NextClassicRecord(endian: Endian, unit: Unit, snaplen: nat) returns (r: Result<Option<Packet>>)
      requires format == Classic(endian, unit, snaplen)
      modifies this`packetBuffer, reader
      ensures NoFailure(old(reader.plan)) ==> NoFailure(reader.plan)
      ensures (r == Err(ReadFailed) && !NoFailure(old(reader.plan))) || Yields(NextClassic(old(reader.rest), endian,
          unit, snaplen), r)
    {
      ghost var rest := reader.rest;
      var read := reader.ReadExactOrEof(16);
      if read.Err? {
        return Err(read.error);
      }
      if read.value.None? {
        return Ok(None);
      }
      var header := read.value.value;
      var seconds, fraction := U32(header, 0, endian), U32(header, 4, endian);
      var captured, wireLength := U32(header, 8, endian), U32(header, 12, endian);
      HeaderFields(rest, header, endian);
      if captured > MAX_BLOCK || captured > snaplen || captured > wireLength || !FractionFits(fraction, unit) {
        return Err(FormatInvalid);
      }
      var nanoseconds := if unit.Microseconds? then fraction * 1_000 else fraction;
      var data := reader.ReadExact(captured);
      if data.Err? {
        return Err(data.error);
      }
      RecordSlices(rest, captured);
      packetBuffer := data.value;
      return Ok(Some(Packet(packetBuffer, Saturated(Saturated(seconds * 1_000_000_000) + nanoseconds), wireLength, 0)));
    }

    method NextRecordOf() returns (r: Result<Option<Packet>>)
      modifies this`interfaces, this`packetBuffer, reader
      ensures NoFailure(old(reader.plan)) ==> NoFailure(reader.plan)
      ensures (r == Err(ReadFailed) && !NoFailure(old(reader.plan))) || Yields(NextRecord(format, old(reader.rest),
          old(interfaces)), r)
    {
      match format
      case Classic(endian, unit, snaplen) => r := NextClassicRecord(endian, unit, snaplen);
      case Ng(endian) => r := NextNgRecord(endian);
    }

    /** A step of the burst loop: the next packet of what remains, or its ending. */
    method Take() returns (r: Result<Option<Packet>>)
      modifies this`interfaces, this`packetBuffer, reader
      ensures NoFailure(old(reader.plan)) ==> NoFailure(reader.plan)
      ensures (r == Err(ReadFailed) && !NoFailure(old(reader.plan))) || TakesFrom(old(Remaining()), r)
    {
      ghost var rest, known := reader.rest, interfaces;
      r := NextRecordOf();
      if r != Err(ReadFailed) || NoFailure(old(reader.plan)) {
        ReadAllStep(format, rest, known);
        ClassicIgnores(format, reader.rest, interfaces);
      }
    }

    /** The source stands behind the record that was refused. */
    ghost predicate StandsBehind(ending: Next)
      requires ending.Bad?
      reads this, reader
    {
      reader.rest == ending.rest && (format.Ng? ==> interfaces == ending.interfaces)
    }

    ghost predicate TakesFrom(all: Capture, r: Result<Option<Packet>>)
      reads this, reader
    {
      if all.packets != [] then
        r == Ok(Some(all.packets[0])) && packetBuffer == all.packets[0].bytes && Remaining()
            == Capture(all.packets[1..], all.ending)
      else if all.ending.Bad? then r == Err(all.ending.error) && StandsBehind(all.ending)
      else r == Ok(None) && Remaining() == Capture([], End)
    }

    /** `receive_burst`: hands over the next packets of what remains, at most a burst of them. */
    method ReceiveBurst() returns (r: Result<nat>)
      requires Valid()
      modifies this`interfaces, this`packetBuffer, this`exhausted, this`delivered, reader
      ensures Valid()
      ensures NoFailure(old(reader.plan)) ==> NoFailure(reader.plan)
      ensures NoFailure(old(reader.plan)) || r != Err(ReadFailed) ==>
                Bursts(old(Remaining()), old(burstSize), old(delivered), r)
      ensures old(delivered) <= delivered <= old(delivered) + old(Remaining()).packets
    {
      ghost var all := Remaining();
      if exhausted {
        assert all.packets[..0] == [] && all.packets[0..] == all.packets && delivered + [] == delivered;
        return Ok(0);
      }
      var received := 0;
      assert all.packets[..0] == [] && all.packets[0..] == all.packets && delivered + [] == delivered;
      while received < burstSize
        invariant received <= burstSize == old(burstSize) && received <= |all.packets| && !exhausted
        invariant delivered == old(delivered) + all.packets[..received]
        invariant Remaining() == Capture(all.packets[received..], all.ending)
        invariant NoFailure(old(reader.plan)) ==> NoFailure(reader.plan)
      {
        var next := Take();
        if next.Err? {
          return Err(next.error);
        }
        if next.value.None? {
          exhausted := true;
          break;
        }
        PrefixStep(old(delivered), all.packets, received);
        delivered := delivered + [next.value.value];
        received := received + 1;
      }
      return Ok(received);
    }

    /** What a burst of at most n of the remaining packets does. */
    ghost predicate Bursts(all: Capture, n: nat, before: seq<Packet>, r: Result<nat>)
      reads this, reader
    {
      var k := Min(n, |all.packets|);
      && delivered == before + all.packets[..k]
      && if k < n && all.ending.Bad? then r == Err(all.ending.error) && StandsBehind(all.ending) && !exhausted
         else r == Ok(k) && Remaining() == Capture(all.packets[k..], all.ending) && (exhausted <==> k < n)
    }

    /** The first n of all packets have been delivered and the others remain. */
    ghost predicate Progress(all: seq<Packet>, before: seq<Packet>, n: nat)
      reads this, reader
    {
      n <= |all| && delivered == before + all[..n] && Remaining() == Capture(all[n..], End)
    }

    /** Any bursts of a capture without errors deliver its packets in order; only how far they get
        depends on their sizes. */
    method ReceiveBursts(sizes: seq<nat>) returns (counts: seq<nat>)
      requires Valid() && NoFailure(reader.plan) && Remaining().ending.End?
      requires forall i :: 0 <= i < |sizes| ==> 1 <= sizes[i] <= 4096
      modifies this`burstSize, this`interfaces, this`packetBuffer, this`exhausted, this`delivered, reader
      ensures Valid() && |counts| == |sizes|
      ensures Sum(counts) == Min(Sum(sizes), |old(Remaining()).packets|)
      ensures Progress(old(Remaining()).packets, old(delivered), Sum(counts))
      ensures forall i :: 0 <= i < |sizes| ==> counts[i] == Share(sizes, i, |old(Remaining()).packets|)
    {
      ghost var all, before, given := Remaining().packets, delivered, 0;
      AtStart();
      counts := [];
      for i := 0 to |sizes|
        invariant Valid() && NoFailure(reader.plan)
        invariant Counted(sizes, i, counts, given, |all|) && Progress(all, before, given)
      {
        var k := OneBurst(sizes[i], all, before, given);
        BurstStep(sizes, i, counts, given, k, |all|);
        given, counts := given + k, counts + [k];
      }
      assert sizes[..|sizes|] == sizes;
    }

    lemma AtStart()
      requires Remaining().ending.End?
      ensures Progress(Remaining().packets, delivered, 0)
    {
      var all := Remaining().packets;
      assert all[..0] == [] && all[0..] == all && delivered + [] == delivered;
    }

    method OneBurst(size: nat, ghost all: seq<Packet>, ghost before: seq<Packet>, ghost n: nat) returns (k: nat)
      requires Valid() && NoFailure(reader.plan) && Progress(all, before, n) && 1 <= size <= 4096
      modifies this`burstSize, this`interfaces, this`packetBuffer, this`exhausted, this`delivered, reader
      ensures Valid() && NoFailure(reader.plan)
      ensures n + k == Min(n + size, |all|) && Progress(all, before, n + k)
    {
      var ok := SetBurstSize(size);
      ghost var remaining := Remaining();
      assert remaining == Capture(all[n..], End);
      var r := ReceiveBurst();
      k := r.value;
      TwoSlices(all, n, k);
      assert (before + all[..n]) + all[n..][..k] == before + (all[..n] + all[n..][..k]);
    }
  }

  function Sum(ns: seq<nat>): nat {
    if ns == [] then 0 else ns[0] + Sum(ns[1..])
  }

  /** What the i-th of some bursts gets of that many packets. */
  function Share(sizes: seq<nat>, i: nat, packets: nat): int
    requires i < |sizes|
  {
    Min(Sum(sizes[..i + 1]), packets) - Min(Sum(sizes[..i]), packets)
  }

  /** The counts of the first i bursts, which add up to what was given. */
  ghost predicate Counted(sizes: seq<nat>, i: nat, counts: seq<nat>, given: nat, packets: nat) {
    && i <= |sizes| && |counts| == i
    && given == Sum(counts) == Min(Sum(sizes[..i]), packets)
    && forall k :: 0 <= k < i ==> counts[k] == Share(sizes, k, packets)
  }

  lemma BurstStep(sizes: seq<nat>, i: nat, counts: seq<nat>, given: nat, k: nat, packets: nat)
    requires i < |sizes| && Counted(sizes, i, counts, given, packets) && given + k == Min(given + sizes[i], packets)
    ensures Counted(sizes, i + 1, counts + [k], given + k, packets)
  {
    SumPrefix(sizes, i);
    SumSnoc(counts, k);
  }

  lemma {:induction false} SumSnoc(ns: seq<nat>, n: nat)
    ensures Sum(ns + [n]) == Sum(ns) + n
  {
    if ns == [] {
      assert ns + [n] == [n] && [n][1..] == [];
    } else {
      assert (ns + [n])[0] == ns[0] && (ns + [n])[1..] == ns[1..] + [n];
      SumSnoc(ns[1..], n);
    }
  }

  lemma SumPrefix(ns: seq<nat>, i: nat)
    requires i < |ns|
    ensures Sum(ns[..i + 1]) == Sum(ns[..i]) + ns[i]
  {
    assert ns[..i + 1] == ns[..i] + [ns[i]];
    SumSnoc(ns[..i], ns[i]);
  }

  lemma TwoSlices<T>(all: seq<T>, m: nat, n: nat)
    requires m + n <= |all|
    ensures all[..m] + all[m..][..n] == all[..m + n] && all[m..][n..] == all[m + n..]
  {}

  lemma PrefixStep<T>(before: seq<T>, all: seq<T>, n: nat)
    requires n < |all|
    ensures (before + all[..n]) + [all[n]] == before + all[..n + 1] && all[n..][1..] == all[n + 1..]
    ensures all[n..][0] == all[n]
  {
    assert all[..n] + [all[n]] == all[..n + 1];
  }

  /** What remains, one record at a time. */
  lemma ReadAllStep(format: Format, rest: seq<Byte>, interfaces: seq<Interface>)
    ensures match NextRecord(format, rest, interfaces)
            case Got(p, after, known) =>
              ReadAll(format, rest, interfaces)
                  == Capture([p] + ReadAll(format, after, known).packets, ReadAll(format, after, known).ending)
            case next => ReadAll(format, rest, interfaces) == Capture([], next)
  {}

  /** Classic records do not depend on interfaces, and at the end there is nothing to read. */
  lemma {:induction false} ClassicIgnores(format: Format, rest: seq<Byte>, interfaces: seq<Interface>)
    ensures format.Classic? ==> ReadAll(format, rest, interfaces) == ReadAll(format, rest, [])
    ensures rest == [] ==> ReadAll(format, rest, interfaces) == Capture([], End)
  {}

  lemma HeaderFields(rest: seq<Byte>, header: seq<Byte>, endian: Endian)
    requires |rest| >= 16 && header == rest[..16]
    ensures U32(header, 0, endian) == U32(rest, 0, endian) && U32(header, 4, endian) == U32(rest, 4, endian)
    ensures U32(header, 8, endian) == U32(rest, 8, endian) && U32(header, 12, endian) == U32(rest, 12, endian)
  {}

  lemma RecordSlices(rest: seq<Byte>, captured: nat)
    requires 16 + captured <= |rest|
    ensures rest[16..][..captured] == rest[16..16 + captured] && rest[16..][captured..] == rest[16 + captured..]
  {}

  /** The block after its first eight bytes have been read. */
  lemma BlockSlices(rest: seq<Byte>, total: nat, block: seq<Byte>, after: seq<Byte>, endian: Endian)
    requires 12 <= total <= |rest| && block == rest[8..][..total - 8] && after == rest[8..][total - 8..]
    ensures U32(block, total - 12, endian) == U32(rest, total - 4, endian)
    ensures block[..total - 12] == rest[8..total - 4] && after == rest[total..]
  {}
}
