/** `FrameRing` as the source writes it, for a caller that is alone between entry and return: its
    methods are proved to be uninterrupted runs of the machine in FrameRing. */
module FrameRingObject {
  import opened Bits
  import opened Common
  import opened FrameRing

  class Ring {
    const capacity: nat
    const offsets: array<nat>
    const lengths: array<nat>
    var producer: nat
    var consumer: nat
    ghost var pushed: nat
    ghost var queue: seq<FrameDescriptor>

    ghost function View(): FrameRing.Ring
      reads this, offsets, lengths
    {
      FrameRing.Ring(capacity, offsets[..], lengths[..], producer, consumer, Outside, Away)
    }

    ghost predicate Valid()
      reads this, offsets, lengths
    {
      offsets != lengths && FrameRing.Inv(View(), pushed, queue)
    }

    constructor (capacity: nat)
      requires New(capacity).Ok?
      ensures Valid() && View() == New(capacity).ring && queue == []
    {
      this.capacity := capacity;
      this.offsets := new nat[capacity](_ => 0);
      this.lengths := new nat[capacity](_ => 0);
      producer, consumer, pushed, queue := 0, 0, 0, [];
      new;
      assert offsets[..] == seq(capacity, _ => 0) && lengths[..] == seq(capacity, _ => 0);
    }

    method TryPush(d: FrameDescriptor) returns (accepted: bool)
      requires Valid()
      modifies this`producer, this`pushed, this`queue, offsets, lengths
      ensures Valid() && consumer == old(consumer)
      ensures accepted <==> |old(queue)| < capacity
      ensures queue == old(queue) + (if accepted then [d] else [])
    {
      PushAlone(View(), d, pushed, queue);
      ghost var after := Pushed(View(), d);
      var p := producer;
      if WrapSub(p, consumer) >= capacity {
        return false;
      }
      AndMask(p, capacity);
      var index := And(p, capacity - 1);
      offsets[index] := d.offset;
      lengths[index] := d.length;
      producer := WrapAdd(p, 1);
      pushed, queue := pushed + 1, queue + [d];
      assert View() == after;
      return true;
    }

    method TryPop() returns (item: Option<FrameDescriptor>)
      requires Valid()
      modifies this`consumer, this`queue
      ensures Valid() && producer == old(producer)
      ensures item == if old(queue) == [] then None else Some(old(queue)[0])
      ensures queue == if old(queue) == [] then [] else old(queue)[1..]
    {
      PopAlone(View(), pushed, queue);
      var c := consumer;
      if c == producer {
        return None;
      }
      AndMask(c, capacity);
      var index := And(c, capacity - 1);
      var offset := offsets[index];
      var length := lengths[index];
      consumer := WrapAdd(c, 1);
      queue := queue[1..];
      return Some(FrameDescriptor(offset, length));
    }

    /** `len`, by a caller that is alone. */
    method Length() returns (n: nat)
      requires Valid()
      ensures n == |queue|
    {
      WrapDistance(pushed, pushed - |queue|);
      n := WrapSub(producer, consumer);
      if n > capacity { n := capacity; }
    }
  }
}
