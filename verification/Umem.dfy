/** Address arithmetic of the UMEM region and of the ring mappings. */
module Umem {
  import opened Bits
  import opened Common

  const PAGE_SIZE: nat := 4096
  const XDP_PKT_CONTD: nat := 2

  datatype Result<T> = Ok(value: T) | InvalidConfig

  datatype XdpDescriptor = XdpDescriptor(address: nat, length: nat, options: nat)

  /** A region of whole chunks; each frame's payload starts behind its headroom. */
  datatype Region = Region(length: nat, chunkSize: nat, headroom: nat)

  predicate Accepts(length: nat, chunkSize: nat, headroom: nat) {
    && 0 < length <= U64_MAX && length % 4096 == 0
    && IsPowerOfTwo(chunkSize) && 2048 <= chunkSize <= 65536
    && headroom < chunkSize
    && length % chunkSize == 0
  }

  ghost predicate Valid(u: Region) {
    Accepts(u.length, u.chunkSize, u.headroom)
  }

  function FrameCount(u: Region): nat
    requires u.chunkSize > 0
  {
    u.length / u.chunkSize
  }

  /** The payload descriptor of a frame: past its headroom, within its chunk. */
  function FrameDescriptor(u: Region, index: nat, length: nat): Result<XdpDescriptor>
    requires Valid(u)
  {
    if index >= FrameCount(u) || length > u.chunkSize - u.headroom then InvalidConfig
    else if index * u.chunkSize + u.headroom > U64_MAX then InvalidConfig
    else Ok(XdpDescriptor(index * u.chunkSize + u.headroom, length, 0))
  }

  function FrameOffset(u: Region, index: nat): Result<nat>
    requires u.chunkSize > 0
  {
    if index >= FrameCount(u) then InvalidConfig
    else if index * u.chunkSize > U64_MAX then InvalidConfig
    else Ok(index * u.chunkSize)
  }

  /** `validate_umem_descriptor` */
  predicate ValidDescriptor(u: Region, d: XdpDescriptor) {
    && d.address + d.length <= U64_MAX
    && d.address + d.length <= u.length
    && d.length <= u.chunkSize
  }

  lemma ChunkInside(u: Region, index: nat)
    requires Valid(u) && index < FrameCount(u)
    ensures index * u.chunkSize + u.chunkSize <= u.length
  {
    var n := FrameCount(u);
    NextMultiple(index, n, u.chunkSize);
    assert u.length == n * u.chunkSize + u.length % u.chunkSize;
  }

  /** A frame descriptor exists exactly for frames of the region and payloads that fit behind the
      headroom; it passes the worker's check and stays within its own chunk. */
  lemma FrameDescriptorInside(u: Region, index: nat, length: nat)
    requires Valid(u)
    ensures FrameDescriptor(u, index, length).Ok? <==> index < FrameCount(u) && length <= u.chunkSize - u.headroom
    ensures FrameDescriptor(u, index, length).Ok? ==>
      var d := FrameDescriptor(u, index, length).value;
      && ValidDescriptor(u, d)
      && FrameOffset(u, index).Ok?
      && FrameOffset(u, index).value + u.headroom == d.address
      && d.address + d.length <= FrameOffset(u, index).value + u.chunkSize <= u.length
  {
    if index < FrameCount(u) {
      ChunkInside(u, index);
    }
  }

  /** Descriptors of distinct frames never overlap. */
  lemma FramesDisjoint(u: Region, i: nat, j: nat, m: nat, n: nat)
    requires Valid(u) && i < j
    requires FrameDescriptor(u, i, m).Ok? && FrameDescriptor(u, j, n).Ok?
    ensures var a, b := FrameDescriptor(u, i, m).value, FrameDescriptor(u, j, n).value;
            a.address + a.length <= b.address
  {
    NextMultiple(i, j, u.chunkSize);
  }

  // ---- Ring mappings ----

  datatype RingOffset = RingOffset(producer: nat, consumer: nat, descriptor: nat, flags: nat)

  function Max(a: nat, b: nat): nat {
    if a < b then b else a
  }

  /** `ring_mapping_length`: the mapping ends past the descriptor array counted from the largest
      offset, rounded up to a page; usize is 64 bits wide. */
  function MappingLength(count: nat, o: RingOffset): Result<nat> {
    var bytes := count * 16;
    var largest := Max(Max(o.producer, o.consumer), Max(o.descriptor, o.flags));
    var end := largest + Max(bytes, 4);
    if bytes > U64_MAX || largest > U64_MAX || end > U64_MAX || end + (PAGE_SIZE - 1) > U64_MAX then InvalidConfig
    else Ok((end + (PAGE_SIZE - 1)) / PAGE_SIZE * PAGE_SIZE)
  }

  /** The bounds checks of `read_index`/`write_index` and of `descriptor_pointer`. */
  predicate IndexInBounds(length: nat, offset: nat) {
    offset <= U64_MAX && offset + 4 <= U64_MAX && offset + 4 <= length
  }

  predicate SlotInBounds(length: nat, entries: nat, o: RingOffset, slot: nat) {
    slot < entries && o.descriptor + slot * 16 + 16 <= U64_MAX && o.descriptor + slot * 16 + 16 <= length
  }

  /** Whatever the kernel's offsets, a mapping sized by the source never fails a check on an index or
      on a masked slot of the worker. */
  lemma MappingCoversRing(entries: nat, o: RingOffset, counter: nat)
    requires MappingLength(entries, o).Ok? && IsPowerOfTwo(entries) && entries <= U32_SPAN
    ensures var length := MappingLength(entries, o).value;
            && IndexInBounds(length, o.producer)
            && IndexInBounds(length, o.consumer)
            && SlotInBounds(length, entries, o, And(counter % U32_SPAN, entries - 1))
  {
    MaskedSlot(counter, entries);
    var slot := And(counter % U32_SPAN, entries - 1);
    assert slot * 16 + 16 <= entries * 16;
  }
}
