/** The blocks of a PCAP or PCAPNG capture and how the reader takes them apart. */
module PcapFormat {
  import opened Common

  const U16_MAX: nat := 0xFFFF
  const MAX_BLOCK: nat := 16 * 1024 * 1024
  const SECTION_HEADER: nat := 0x0A0D_0D0A

  datatype Error = FormatInvalid | ReadFailed

  datatype Result<T> = Ok(value: T) | Err(error: Error)

  datatype Endian = Little | Big

  /** Ticks per second: a power of ten or of two. */
  datatype Resolution = Decimal(power: nat) | Binary(power: nat)

  datatype Interface = Interface(linkType: nat, snaplen: nat, resolution: Resolution)

  datatype Packet = Packet(bytes: seq<Byte>, nanoseconds: nat, wireLength: nat, queueId: nat)

  // ---- Fields ----

  function U16(b: seq<Byte>, at: nat, endian: Endian): nat
    requires at + 2 <= |b|
  {
    var first: nat, second: nat := b[at], b[at + 1];
    match endian
    case Little => first + 256 * second
    case Big => 256 * first + second
  }

  function U32(b: seq<Byte>, at: nat, endian: Endian): nat
    requires at + 4 <= |b|
  {
    match endian
    case Little => U16(b, at, endian) + 0x1_0000 * U16(b, at + 2, endian)
    case Big => 0x1_0000 * U16(b, at, endian) + U16(b, at + 2, endian)
  }

  /** `(n + 3) & !3` */
  function Padded(n: nat): (r: nat)
    ensures n <= r < n + 4 && r % 4 == 0
  {
    (n + 3) / 4 * 4
  }

  // ---- Options ----

  /** Visits the options in order; the first error ends it. */
  function FoldOptions<S>(bytes: seq<Byte>, endian: Endian, s: S, visit: (S, nat, seq<Byte>) -> Result<S>): Result<S>
    decreases |bytes|
  {
    if bytes == [] then Ok(s)
    else if |bytes| < 4 then Err(FormatInvalid)
    else
      var code, length := U16(bytes, 0, endian), U16(bytes, 2, endian);
      var rest := bytes[4..];
      if code == 0 then if length != 0 then Err(FormatInvalid) else Ok(s)
      else if Padded(length) > |rest| then Err(FormatInvalid)
      else
        var visited := visit(s, code, rest[..length]);
        if visited.Err? then visited else FoldOptions(rest[Padded(length)..], endian, visited.value, visit)
  }

  /** `parse_options`, its visitor given as a step on the state that it updates. */
  method ParseOptions<S>(
      options: seq<Byte>, endian: Endian, init: S, visit: (S, nat, seq<Byte>) -> Result<S>)
    returns (r: Result<S>)
    ensures r == FoldOptions(options, endian, init, visit)
  {
    var bytes, s := options, init;
    while bytes != []
      invariant FoldOptions(options, endian, init, visit) == FoldOptions(bytes, endian, s, visit)
      decreases |bytes|
    {
      if |bytes| < 4 {
        return Err(FormatInvalid);
      }
      var code, length := U16(bytes, 0, endian), U16(bytes, 2, endian);
      var rest := bytes[4..];
      if code == 0 {
        return if length != 0 then Err(FormatInvalid) else Ok(s);
      }
      var padded := Padded(length);
      if padded > |rest| || length > |rest| {
        return Err(FormatInvalid);
      }
      var visited := visit(s, code, rest[..length]);
      if visited.Err? {
        return visited;
      }
      s := visited.value;
      bytes := rest[padded..];
    }
    return Ok(s);
  }

  // ---- Interfaces ----

  function ResolutionOf(b: Byte): Resolution {
    if b < 128 then Decimal(b) else Binary(b - 128)
  }

  /** `if_tsresol` */
  function VisitInterface(s: Resolution, code: nat, value: seq<Byte>): Result<Resolution> {
    if code == 9 && |value| == 1 then Ok(ResolutionOf(value[0])) else Ok(s)
  }

  function ParseInterface(body: seq<Byte>, endian: Endian): Result<Interface> {
    if |body| < 8 then Err(FormatInvalid)
    else if U16(body, 0, endian) != 1 then Err(FormatInvalid)
    else
      var resolution := FoldOptions(body[8..], endian, Decimal(6), VisitInterface);
      if resolution.Err? then Err(resolution.error) else Ok(Interface(1, U32(body, 4, endian), resolution.value))
  }

  // ---- Timestamps ----

  function Pow(base: nat, exponent: nat): nat {
    if exponent == 0 then 1 else base * Pow(base, exponent - 1)
  }

  function Saturated(n: nat): nat {
    if n > U64_MAX then U64_MAX else n
  }

  function ToNanoseconds(timestamp: nat, resolution: Resolution): Result<nat> {
    match resolution
    case Decimal(power) =>
      if power <= 9 then Ok(Saturated(timestamp * Saturated(Pow(10, 9 - power))))
      else if power <= 19 then Ok(timestamp / SaturatedPow(power - 9))
      else Err(FormatInvalid)
    case Binary(power) =>
      if power <= 63 then Ok(Saturated(timestamp * 1_000_000_000 / PowerOfTwo(power))) else Err(FormatInvalid)
  }

  function SaturatedPow(exponent: nat): (r: nat)
    ensures r > 0
  {
    PowPositive(10, exponent);
    Saturated(Pow(10, exponent))
  }

  function PowerOfTwo(exponent: nat): (r: nat)
    ensures r > 0
  {
    PowPositive(2, exponent);
    Pow(2, exponent)
  }

  lemma {:induction false} PowPositive(base: nat, exponent: nat)
    requires base > 0
    ensures Pow(base, exponent) > 0
  {
    if exponent > 0 {
      PowPositive(base, exponent - 1);
    }
  }

  // ---- Queue comments ----

  /** "queue_id=" */
  const QUEUE_PREFIX: seq<Byte> := [113, 117, 101, 117, 101, 95, 105, 100, 61]

  predicate Continuation(b: Byte) {
    0x80 <= b <= 0xBF
  }

  /** Length of the well-formed UTF-8 sequence at the start, or 0. */
  function Utf8Length(b: seq<Byte>): (n: nat)
    requires b != []
    ensures n <= |b|
  {
    if b[0] < 0x80 then 1
    else if 0xC2 <= b[0] <= 0xDF && |b| >= 2 && Continuation(b[1]) then 2
    else if 0xE0 <= b[0] <= 0xEF && |b| >= 3 && Continuation(b[1]) && Continuation(b[2])
            && (b[0] == 0xE0 ==> b[1] >= 0xA0) && (b[0] == 0xED ==> b[1] <= 0x9F) then 3
    else if 0xF0 <= b[0] <= 0xF4 && |b| >= 4 && Continuation(b[1]) && Continuation(b[2]) && Continuation(b[3])
            && (b[0] == 0xF0 ==> b[1] >= 0x90) && (b[0] == 0xF4 ==> b[1] <= 0x8F) then 4
    else 0
  }

  /** `std::str::from_utf8(b).is_ok()` */
  predicate IsUtf8(b: seq<Byte>)
    decreases |b|
  {
    b == [] || (Utf8Length(b) > 0 && IsUtf8(b[Utf8Length(b)..]))
  }

  datatype Parsed = Number(n: nat) | NotANumber

  predicate IsDigit(b: Byte) {
    48 <= b <= 57
  }

  /** Digits in order, `value` read so far; a value above the limit is an error. */
  function ReadDigits(digits: seq<Byte>, value: nat): Parsed
    decreases |digits|
  {
    if digits == [] then Number(value)
    else if !IsDigit(digits[0]) || 10 * value + (digits[0] - 48) > U16_MAX then NotANumber
    else ReadDigits(digits[1..], 10 * value + (digits[0] - 48))
  }

  /** `u16::from_str` */
  function ParseU16(text: seq<Byte>): Parsed {
    var digits := if text != [] && text[0] == 43 then text[1..] else text;
    if digits == [] then NotANumber else ReadDigits(digits, 0)
  }

  /** A comment that names a queue overrides the queue; other comments and options are skipped. */
  function VisitPacket(queueId: nat, code: nat, value: seq<Byte>): Result<nat> {
    if code == 1 && IsUtf8(value) && QUEUE_PREFIX <= value then
      match ParseU16(value[|QUEUE_PREFIX|..])
      case Number(n) => Ok(n)
      case NotANumber => Err(FormatInvalid)
    else Ok(queueId)
  }

  // ---- Packets ----

  function ParsePacket(body: seq<Byte>, endian: Endian, interfaces: seq<Interface>): Result<Packet> {
    if |body| < 20 then Err(FormatInvalid)
    else
      var id := U32(body, 0, endian);
      if id >= |interfaces| || interfaces[id].linkType != 1 then Err(FormatInvalid)
      else
        var timestamp := 0x1_0000_0000 * U32(body, 4, endian) + U32(body, 8, endian);
        var captured, wireLength := U32(body, 12, endian), U32(body, 16, endian);
        if !LengthsFit(captured, wireLength, interfaces[id].snaplen) then Err(FormatInvalid)
        else if 20 + Padded(captured) > |body| then Err(FormatInvalid)
        else PacketAt(body, endian, id, interfaces[id].resolution, timestamp, captured, wireLength)
  }

  /** The rest of a packet block whose header is in order. */
  function PacketAt(
      body: seq<Byte>, endian: Endian, id: nat, resolution: Resolution, timestamp: nat, captured: nat,
      wireLength: nat): Result<Packet>
    requires 20 + Padded(captured) <= |body|
  {
    var queue := FoldOptions(body[20 + Padded(captured)..], endian, DefaultQueue(id), VisitPacket);
    if queue.Err? then Err(queue.error)
    else
      var time := ToNanoseconds(timestamp, resolution);
      if time.Err? then Err(time.error)
      else Ok(Packet(body[20..20 + captured], time.value, wireLength, queue.value))
  }

  /** The interface number as a queue number, as far as it fits. */
  function DefaultQueue(id: nat): nat {
    if id > U16_MAX then U16_MAX else id
  }

  predicate LengthsFit(captured: nat, wireLength: nat, snaplen: nat) {
    captured <= MAX_BLOCK && (snaplen != 0 ==> captured <= snaplen) && captured <= wireLength
  }

  // ---- Blocks ----

  /** What the next record is, with what remains to be read and the interfaces known then; after an error
      reading can go on behind the bytes that were read. */
  datatype Next =
    | End
    | Got(packet: Packet, rest: seq<Byte>, interfaces: seq<Interface>)
    | Bad(error: Error, rest: seq<Byte>, interfaces: seq<Interface>)

  /** A block that passes the length checks. */
  predicate WholeBlock(rest: seq<Byte>, endian: Endian) {
    && |rest| >= 8
    && var total := U32(rest, 4, endian);
       12 <= total <= MAX_BLOCK && total % 4 == 0 && total <= |rest| && U32(rest, total - 4, endian) == total
  }

  /** Why a block that does not is refused: only a body that ends early is a failed read. */
  function BlockError(rest: seq<Byte>, endian: Endian): Error {
    if |rest| < 8 then FormatInvalid
    else
      var total := U32(rest, 4, endian);
      if 12 <= total <= MAX_BLOCK && total % 4 == 0 && total > |rest| then ReadFailed else FormatInvalid
  }

  /** What remains behind it: a truncated block uses up the file. */
  function BehindBlock(rest: seq<Byte>, endian: Endian): seq<Byte> {
    if |rest| < 8 then []
    else
      var total := U32(rest, 4, endian);
      if !(12 <= total <= MAX_BLOCK) || total % 4 != 0 then rest[8..]
      else if total > |rest| then []
      else rest[total..]
  }

  /** `next_pcapng_record` on the unread bytes. */
  function NextBlock(rest: seq<Byte>, endian: Endian, interfaces: seq<Interface>): Next
    decreases |rest|
  {
    if rest == [] then End
    else if !WholeBlock(rest, endian) then Bad(BlockError(rest, endian), BehindBlock(rest, endian), interfaces)
    else
      var total := U32(rest, 4, endian);
      var kind, body := U32(rest, 0, endian), rest[8..total - 4];
      if kind == 1 then
        var i := ParseInterface(body, endian);
        if i.Err? then Bad(i.error, rest[total..], interfaces)
        else NextBlock(rest[total..], endian, interfaces + [i.value])
      else if kind == 6 then
        var p := ParsePacket(body, endian, interfaces);
        if p.Err? then Bad(p.error, rest[total..], interfaces) else Got(p.value, rest[total..], interfaces)
      else if kind == SECTION_HEADER then Bad(FormatInvalid, rest[total..], interfaces)
      else NextBlock(rest[total..], endian, interfaces)
  }

  // ---- Classic records ----

  datatype Unit = Microseconds | Nanoseconds

  predicate FractionFits(fraction: nat, unit: Unit) {
    fraction < (if unit.Microseconds? then 1_000_000 else 1_000_000_000)
  }

  /** `read_pcap_record` on the unread bytes. */
  function NextClassic(rest: seq<Byte>, endian: Endian, unit: Unit, snaplen: nat): Next {
    if rest == [] then End
    else if |rest| < 16 then Bad(FormatInvalid, [], [])
    else
      var seconds, fraction := U32(rest, 0, endian), U32(rest, 4, endian);
      var captured, wireLength := U32(rest, 8, endian), U32(rest, 12, endian);
      if captured > MAX_BLOCK || captured > snaplen || captured > wireLength || !FractionFits(fraction, unit) then
        Bad(FormatInvalid, rest[16..], [])
      else if 16 + captured > |rest| then Bad(ReadFailed, [], [])
      else
        var nanoseconds := if unit.Microseconds? then fraction * 1_000 else fraction;
        var time := Saturated(Saturated(seconds * 1_000_000_000) + nanoseconds);
        Got(Packet(rest[16..16 + captured], time, wireLength, 0), rest[16 + captured..], [])
  }

  // ---- Either format ----

  datatype Format = Classic(endian: Endian, unit: Unit, snaplen: nat) | Ng(endian: Endian)

  const MAGIC_SECTION: seq<Byte> := [0x0A, 0x0D, 0x0D, 0x0A]
  const ORDER_LITTLE: seq<Byte> := [0x4D, 0x3C, 0x2B, 0x1A]
  const ORDER_BIG: seq<Byte> := [0x1A, 0x2B, 0x3C, 0x4D]

  function Magic(endian: Endian, unit: Unit): seq<Byte> {
    match (endian, unit)
    case (Little, Microseconds) => [0xD4, 0xC3, 0xB2, 0xA1]
    case (Big, Microseconds) => [0xA1, 0xB2, 0xC3, 0xD4]
    case (Little, Nanoseconds) => [0x4D, 0x3C, 0xB2, 0xA1]
    case (Big, Nanoseconds) => [0xA1, 0xB2, 0x3C, 0x4D]
  }

  datatype Opened = Opened(format: Format, rest: seq<Byte>)

  /** `open`: the format and what follows the header. */
  function Open(file: seq<Byte>): Result<Opened> {
    if |file| < 4 then Err(ReadFailed)
    else
      var magic := file[..4];
      if magic == Magic(Little, Microseconds) then OpenClassic(file[4..], Little, Microseconds)
      else if magic == Magic(Big, Microseconds) then OpenClassic(file[4..], Big, Microseconds)
      else if magic == Magic(Little, Nanoseconds) then OpenClassic(file[4..], Little, Nanoseconds)
      else if magic == Magic(Big, Nanoseconds) then OpenClassic(file[4..], Big, Nanoseconds)
      else if magic == MAGIC_SECTION then OpenSection(file[4..])
      else Err(FormatInvalid)
  }

  function OpenClassic(file: seq<Byte>, endian: Endian, unit: Unit): Result<Opened> {
    if |file| < 20 then Err(ReadFailed)
    else if U16(file, 0, endian) != 2 || U16(file, 2, endian) != 4 then Err(FormatInvalid)
    else
      var snaplen := U32(file, 12, endian);
      if snaplen == 0 || snaplen > MAX_BLOCK || U32(file, 16, endian) != 1 then Err(FormatInvalid)
      else Ok(Opened(Classic(endian, unit, snaplen), file[20..]))
  }

  function OpenSection(file: seq<Byte>): Result<Opened> {
    if |file| < 8 then Err(ReadFailed)
    else
      var order := file[4..8];
      if order == ORDER_LITTLE then OpenOrdered(file, Little)
      else if order == ORDER_BIG then OpenOrdered(file, Big)
      else Err(FormatInvalid)
  }

  /** A section header whose byte order is known; its length counts the magic. */
  function OpenOrdered(file: seq<Byte>, endian: Endian): Result<Opened>
    requires |file| >= 8
  {
    var total := U32(file, 0, endian);
    if !(28 <= total <= MAX_BLOCK) || total % 4 != 0 then Err(FormatInvalid)
    else if total - 4 > |file| then Err(ReadFailed)
    else if U16(file, 8, endian) != 1 || U32(file, total - 8, endian) != total then Err(FormatInvalid)
    else Ok(Opened(Ng(endian), file[total - 4..]))
  }

  function NextRecord(format: Format, rest: seq<Byte>, interfaces: seq<Interface>): Next {
    match format
    case Classic(endian, unit, snaplen) => NextClassic(rest, endian, unit, snaplen)
    case Ng(endian) => NextBlock(rest, endian, interfaces)
  }

  /** A record takes at least 12 bytes of the file, and an error at least one. */
  lemma {:induction false} RecordConsumes(format: Format, rest: seq<Byte>, interfaces: seq<Interface>)
    ensures var n := NextRecord(format, rest, interfaces);
            (n.Got? ==> |n.rest| + 12 <= |rest|) && (n.Bad? ==> |n.rest| < |rest|)
    decreases |rest|
  {
    if format.Ng? && rest != [] && WholeBlock(rest, format.endian) {
      var total := U32(rest, 4, format.endian);
      var body := rest[8..total - 4];
      var i := ParseInterface(body, format.endian);
      RecordConsumes(format, rest[total..], if i.Ok? then interfaces + [i.value] else interfaces);
      RecordConsumes(format, rest[total..], interfaces);
    }
  }
}
