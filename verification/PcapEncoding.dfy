/** A reference encoder for PCAPNG section bodies, written from sections 3.1, 3.5, 4.2 and 4.3 of
    draft-ietf-opsawg-pcapng, and what the blocks mean. */
module PcapEncoding {
  import opened Common
  import opened PcapFormat

  function E16(n: nat, endian: Endian): (b: seq<Byte>)
    requires n < 0x1_0000
    ensures |b| == 2
  {
    match endian
    case Little => [n % 256, n / 256]
    case Big => [n / 256, n % 256]
  }

  function E32(n: nat, endian: Endian): (b: seq<Byte>)
    requires n < 0x1_0000_0000
    ensures |b| == 4
  {
    match endian
    case Little => E16(n % 0x1_0000, endian) + E16(n / 0x1_0000, endian)
    case Big => E16(n / 0x1_0000, endian) + E16(n % 0x1_0000, endian)
  }

  lemma Front16(n: nat, b: seq<Byte>, endian: Endian)
    requires n < 0x1_0000
    ensures U16(E16(n, endian) + b, 0, endian) == n
  {}

  lemma Skip16(a: seq<Byte>, b: seq<Byte>, at: nat, endian: Endian)
    requires at + 2 <= |b|
    ensures U16(a + b, |a| + at, endian) == U16(b, at, endian)
  {
    assert (a + b)[|a| + at] == b[at] && (a + b)[|a| + at + 1] == b[at + 1];
  }

  lemma Skip32(a: seq<Byte>, b: seq<Byte>, at: nat, endian: Endian)
    requires at + 4 <= |b|
    ensures U32(a + b, |a| + at, endian) == U32(b, at, endian)
  {
    Skip16(a, b, at, endian);
    Skip16(a, b, at + 2, endian);
  }

  lemma Pair16(m: nat, n: nat, b: seq<Byte>, endian: Endian)
    requires m < 0x1_0000 && n < 0x1_0000
    ensures U16((E16(m, endian) + E16(n, endian)) + b, 0, endian) == m
    ensures U16((E16(m, endian) + E16(n, endian)) + b, 2, endian) == n
  {
    Reassociate(E16(m, endian), E16(n, endian), b);
    Front16(m, E16(n, endian) + b, endian);
    Skip16(E16(m, endian), E16(n, endian) + b, 0, endian);
    Front16(n, b, endian);
  }

  lemma Front32(n: nat, b: seq<Byte>, endian: Endian)
    requires n < 0x1_0000_0000
    ensures U32(E32(n, endian) + b, 0, endian) == n
  {
    match endian
    case Little => Pair16(n % 0x1_0000, n / 0x1_0000, b, endian);
    case Big => Pair16(n / 0x1_0000, n % 0x1_0000, b, endian);
  }

  // ---- Options ----

  /** The options that say something about packets, and all others. */
  datatype Content =
    | QueueComment(queueId: nat)
    | TsResolution(code: Byte)
    | TsOffset(raw: seq<Byte>)
    | Plain(kind: nat, value: seq<Byte>)

  datatype BlockOption = BlockOption(content: Content, padding: seq<Byte>)

  function Digits(n: nat): (d: seq<Byte>)
    ensures |d| > 0 && forall i :: 0 <= i < |d| ==> IsDigit(d[i])
  {
    if n < 10 then [48 + n] else Digits(n / 10) + [48 + n % 10]
  }

  function Code(content: Content): nat {
    match content case QueueComment(_) => 1 case TsResolution(_) => 9 case TsOffset(_) => 14 case Plain(kind, _) => kind
  }

  function Value(content: Content): seq<Byte> {
    match content
    case QueueComment(queueId) => QUEUE_PREFIX + Digits(queueId)
    case TsResolution(code) => [code]
    case TsOffset(raw) => raw
    case Plain(_, value) => value
  }

  /** Within the field widths, padded to 32 bits, and a plain option is none of the special ones. */
  predicate Encodable(option: BlockOption) {
    && 0 < Code(option.content) < 0x1_0000
    && |Value(option.content)| < 0x1_0000
    && |option.padding| == Padded(|Value(option.content)|) - |Value(option.content)|
    && match option.content
       case QueueComment(queueId) => queueId <= U16_MAX
       case TsResolution(_) => true
       case TsOffset(raw) => |raw| == 8
       case Plain(kind, value) =>
         && !(kind == 9 && |value| == 1) && !(kind == 14 && |value| == 8)
         && !(kind == 1 && IsUtf8(value) && QUEUE_PREFIX <= value)
  }

  predicate AllEncodable(options: seq<BlockOption>) {
    forall i :: 0 <= i < |options| ==> Encodable(options[i])
  }

  function EncodeOption(option: BlockOption, endian: Endian): seq<Byte>
    requires Encodable(option)
  {
    var value := Value(option.content);
    (E16(Code(option.content), endian) + E16(|value|, endian)) + (value + option.padding)
  }

  /** The options, closed by an end-of-options or by the end of the block. */
  function EncodeOptions(options: seq<BlockOption>, closed: bool, endian: Endian): seq<Byte>
    requires AllEncodable(options)
  {
    if options == [] then if closed then E16(0, endian) + E16(0, endian) else []
    else EncodeOption(options[0], endian) + EncodeOptions(options[1..], closed, endian)
  }

  function FoldContents<S>(options: seq<BlockOption>, s: S, visit: (S, nat, seq<Byte>) -> Result<S>): Result<S> {
    if options == [] then Ok(s)
    else
      var visited := visit(s, Code(options[0].content), Value(options[0].content));
      if visited.Err? then visited else FoldContents(options[1..], visited.value, visit)
  }

  /** One encoded option, seen by the parser. */
  lemma FoldFirst<S>(
      code: nat, value: seq<Byte>, padding: seq<Byte>, rest: seq<Byte>, endian: Endian, s: S,
      visit: (S, nat, seq<Byte>) -> Result<S>)
    requires 0 < code < 0x1_0000 && |value| < 0x1_0000 && |padding| == Padded(|value|) - |value|
    ensures var bytes := (E16(code, endian) + E16(|value|, endian)) + ((value + padding) + rest);
            FoldOptions(bytes, endian, s, visit) ==
              var visited := visit(s, code, value);
              if visited.Err? then visited else FoldOptions(rest, endian, visited.value, visit)
  {
    var header, tail := E16(code, endian) + E16(|value|, endian), (value + padding) + rest;
    Pair16(code, |value|, tail, endian);
    CutConcat(header, tail);
    CutConcat(value + padding, rest);
    assert tail[..|value|] == value;
  }

  /** The parser visits exactly the encoded options, in order. */
  lemma {:induction false} FoldEncoded<S>(
      options: seq<BlockOption>, closed: bool, endian: Endian, s: S, visit: (S, nat, seq<Byte>) -> Result<S>)
    requires AllEncodable(options)
    ensures FoldOptions(EncodeOptions(options, closed, endian), endian, s, visit) == FoldContents(options, s, visit)
  {
    if options == [] {
      if closed {
        Pair16(0, 0, [], endian);
        assert (E16(0, endian) + E16(0, endian)) + [] == E16(0, endian) + E16(0, endian);
      }
    } else {
      var o, rest := options[0], EncodeOptions(options[1..], closed, endian);
      Reassociate(E16(Code(o.content), endian) + E16(|Value(o.content)|, endian), Value(o.content) + o.padding, rest);
      FoldFirst(Code(o.content), Value(o.content), o.padding, rest, endian, s, visit);
      var visited := visit(s, Code(o.content), Value(o.content));
      if visited.Ok? {
        FoldEncoded(options[1..], closed, endian, visited.value, visit);
      }
    }
  }

  // ---- What options say: the last one counts ----

  function LastResolution(options: seq<BlockOption>, default: Resolution): Resolution {
    if options == [] then default
    else
      var next := match options[0].content case TsResolution(code) => ResolutionOf(code) case _ => default;
      LastResolution(options[1..], next)
  }

  /** `if_tsoffset`: a signed number of seconds in eight bytes. */
  function OffsetOf(raw: seq<Byte>, endian: Endian): int
    requires |raw| == 8
  {
    var first, second := U32(raw, 0, endian), U32(raw, 4, endian);
    var n := if endian.Little? then first + 0x1_0000_0000 * second else 0x1_0000_0000 * first + second;
    if n < 0x8000_0000_0000_0000 then n else n - 0x1_0000_0000_0000_0000
  }

  function LastOffset(options: seq<BlockOption>, default: int, endian: Endian): int
    requires AllEncodable(options)
  {
    if options == [] then default
    else
      assert Encodable(options[0]);
      var next := match options[0].content case TsOffset(raw) => OffsetOf(raw, endian) case _ => default;
      LastOffset(options[1..], next, endian)
  }

  function LastQueue(options: seq<BlockOption>, default: nat): nat {
    if options == [] then default
    else LastQueue(options[1..], match options[0].content case QueueComment(queueId) => queueId case _ => default)
  }

  lemma {:induction false} ResolutionRead(options: seq<BlockOption>, r: Resolution)
    requires AllEncodable(options)
    ensures FoldContents(options, r, VisitInterface) == Ok(LastResolution(options, r))
  {
    if options != [] {
      assert Encodable(options[0]);
      ResolutionRead(options[1..], match options[0].content case TsResolution(code) => ResolutionOf(code) case _ => r);
    }
  }

  lemma {:induction false} DigitsRead(n: nat, rest: seq<Byte>)
    requires n <= U16_MAX
    ensures ReadDigits(Digits(n) + rest, 0) == ReadDigits(rest, n)
  {
    if n < 10 {
      assert ([48 + n] + rest)[1..] == rest;
    } else {
      var last: seq<Byte> := [48 + n % 10];
      Reassociate(Digits(n / 10), last, rest);
      DigitsRead(n / 10, last + rest);
      assert (last + rest)[1..] == rest;
    }
  }

  /** Printing and parsing a queue number. */
  lemma NumberRead(n: nat)
    requires n <= U16_MAX
    ensures ParseU16(Digits(n)) == Number(n)
  {
    DigitsRead(n, []);
    assert Digits(n) + [] == Digits(n);
    assert IsDigit(Digits(n)[0]);
  }

  lemma {:induction false} AsciiIsUtf8(b: seq<Byte>)
    requires forall i :: 0 <= i < |b| ==> b[i] < 0x80
    ensures IsUtf8(b)
  {
    if b != [] {
      AsciiIsUtf8(b[1..]);
    }
  }

  lemma QueueCommentRead(queueId: nat, n: nat)
    requires n <= U16_MAX
    ensures VisitPacket(queueId, 1, QUEUE_PREFIX + Digits(n)) == Ok(n)
  {
    AsciiIsUtf8(QUEUE_PREFIX + Digits(n));
    CutConcat(QUEUE_PREFIX, Digits(n));
    NumberRead(n);
  }

  lemma {:induction false} QueueRead(options: seq<BlockOption>, queueId: nat)
    requires AllEncodable(options)
    ensures FoldContents(options, queueId, VisitPacket) == Ok(LastQueue(options, queueId))
  {
    if options != [] {
      assert Encodable(options[0]);
      match options[0].content
      case QueueComment(n) =>
        QueueCommentRead(queueId, n);
        QueueRead(options[1..], n);
      case TsResolution(_) => QueueRead(options[1..], queueId);
      case TsOffset(_) => QueueRead(options[1..], queueId);
      case Plain(_, _) => QueueRead(options[1..], queueId);
    }
  }
}
