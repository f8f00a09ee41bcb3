/** The single-producer/single-consumer descriptor ring.

    Two threads share the slots and the two u32 indices.  Every atomic load and store is one step of
    a machine in which the scheduler picks who moves next, so a run is any interleaving.  The ring is
    proved to refine a bounded first-in first-out queue, for runs of any length. */
module FrameRing {
  import opened Bits
  import opened Common

  datatype FrameDescriptor = FrameDescriptor(offset: nat, length: nat)

  /** Where the producer is inside `try_push`: what it has loaded or stored so far. */
  datatype Producer =
    | Outside
    | Called(d: FrameDescriptor)
    | LoadedProducer(d: FrameDescriptor, index: nat)
    | FoundRoom(d: FrameDescriptor, index: nat)
    | StoredOffset(d: FrameDescriptor, index: nat)
    | StoredLength(d: FrameDescriptor, index: nat)

  /** Where the consumer is inside `try_pop`. */
  datatype Consumer =
    | Away
    | Asked
    | LoadedConsumer(index: nat)
    | FoundItem(index: nat)
    | LoadedOffset(index: nat, offset: nat)
    | LoadedLength(index: nat, offset: nat, length: nat)

  /** `offsets` and `lengths` are the atomic halves of the slots. */
  datatype Ring = Ring(
    capacity: nat,
    offsets: seq<nat>,
    lengths: seq<nat>,
    producer: nat,
    consumer: nat,
    pushing: Producer,
    popping: Consumer)

  /** What a step lets its caller see. */
  datatype Seen =
    | Nothing
    | PushReturned(d: FrameDescriptor, accepted: bool)
    | PopReturned(item: Option<FrameDescriptor>)

  /** The scheduler's choice.  `Push` and `Pop` start a call and are ignored by a busy thread. */
  datatype Move = Push(d: FrameDescriptor) | Pop | ProducerStep | ConsumerStep

  datatype Result = Ok(ring: Ring) | InvalidConfig

  function New(capacity: nat): Result {
    if capacity == 0 || !IsPowerOfTwo(capacity) || capacity > 0x10_0000 then InvalidConfig
    else Ok(Ring(capacity, seq(capacity, _ => 0), seq(capacity, _ => 0), 0, 0, Outside, Away))
  }

  /** The slots exist and the capacity is one `New` accepts. */
  predicate Sized(r: Ring) {
    0 < r.capacity <= 0x10_0000 && IsPowerOfTwo(r.capacity) && |r.offsets| == r.capacity && |r.lengths| == r.capacity
  }

  function Index(r: Ring, index: nat): (slot: nat)
    requires Sized(r)
    ensures slot < r.capacity
  {
    AndMask(index, r.capacity);
    And(index, r.capacity - 1)
  }

  function ProducerNext(r: Ring): (Ring, Seen)
    requires Sized(r)
  {
    match r.pushing
    case Outside => (r, Nothing)
    case Called(d) => (r.(pushing := LoadedProducer(d, r.producer)), Nothing)
    case LoadedProducer(d, p) =>
      if WrapSub(p, r.consumer) >= r.capacity then (r.(pushing := Outside), PushReturned(d, false))
      else (r.(pushing := FoundRoom(d, p)), Nothing)
    case FoundRoom(d, p) =>
      (r.(offsets := r.offsets[Index(r, p) := d.offset], pushing := StoredOffset(d, p)), Nothing)
    case StoredOffset(d, p) =>
      (r.(lengths := r.lengths[Index(r, p) := d.length], pushing := StoredLength(d, p)), Nothing)
    case StoredLength(d, p) => (r.(producer := WrapAdd(p, 1), pushing := Outside), PushReturned(d, true))
  }

  function ConsumerNext(r: Ring): (Ring, Seen)
    requires Sized(r)
  {
    match r.popping
    case Away => (r, Nothing)
    case Asked => (r.(popping := LoadedConsumer(r.consumer)), Nothing)
    case LoadedConsumer(c) =>
      if c == r.producer then (r.(popping := Away), PopReturned(None)) else (r.(popping := FoundItem(c)), Nothing)
    case FoundItem(c) => (r.(popping := LoadedOffset(c, r.offsets[Index(r, c)])), Nothing)
    case LoadedOffset(c, offset) => (r.(popping := LoadedLength(c, offset, r.lengths[Index(r, c)])), Nothing)
    case LoadedLength(c, offset, length) =>
      (r.(consumer := WrapAdd(c, 1), popping := Away), PopReturned(Some(FrameDescriptor(offset, length))))
  }

  function Next(r: Ring, move: Move): (Ring, Seen)
    requires Sized(r)
  {
    match move
    case Push(d) => (if r.pushing.Outside? then r.(pushing := Called(d)) else r, Nothing)
    case Pop => (if r.popping.Away? then r.(popping := Asked) else r, Nothing)
    case ProducerStep => ProducerNext(r)
    case ConsumerStep => ConsumerNext(r)
  }

  lemma NextSized(r: Ring, move: Move)
    requires Sized(r)
    ensures Sized(Next(r, move).0) && Next(r, move).0.capacity == r.capacity
  {}

  /** The run of a schedule: the final ring and everything the callers saw, in order. */
  function Run(r: Ring, moves: seq<Move>): (Ring, seq<Seen>)
    requires Sized(r)
    decreases |moves|
  {
    if moves == [] then (r, [])
    else
      NextSized(r, moves[0]);
      var (next, seen) := Next(r, moves[0]);
      var (last, rest) := Run(next, moves[1..]);
      (last, [seen] + rest)
  }

  // ---- The bounded queue the callers should see ----

  datatype Queue = Refused | Accepted(queue: seq<FrameDescriptor>)

  /** What one observation does to a queue of the given capacity; `Refused` if a queue could not have
      produced it. */
  function QueueStep(queue: seq<FrameDescriptor>, capacity: nat, seen: Seen): Queue {
    match seen
    case Nothing => Accepted(queue)
    case PushReturned(d, true) => if |queue| < capacity then Accepted(queue + [d]) else Refused
    case PushReturned(_, false) => if |queue| == capacity then Accepted(queue) else Refused
    case PopReturned(Some(d)) => if queue != [] && queue[0] == d then Accepted(queue[1..]) else Refused
    case PopReturned(None) => if queue == [] then Accepted(queue) else Refused
  }

  function QueueRun(queue: seq<FrameDescriptor>, capacity: nat, seen: seq<Seen>): Queue
    decreases |seen|
  {
    if seen == [] then Accepted(queue)
    else
      match QueueStep(queue, capacity, seen[0])
      case Refused => Refused
      case Accepted(next) => QueueRun(next, capacity, seen[1..])
  }

  // ---- Invariant ----

  /** `pushed` and `popped` are running totals that never wrap; the indices are their u32 images. */
  ghost predicate Counted(r: Ring, pushed: nat, popped: nat) {
    && popped <= pushed <= popped + r.capacity
    && r.producer == pushed % U32_SPAN
    && r.consumer == popped % U32_SPAN
  }

  ghost predicate SlotHolds(r: Ring, counter: nat, d: FrameDescriptor)
    requires Sized(r)
  {
    r.offsets[Fold(counter, r.capacity)] == d.offset && r.lengths[Fold(counter, r.capacity)] == d.length
  }

  /** The slots between the indices hold the queue. */
  ghost predicate Holds(r: Ring, popped: nat, queue: seq<FrameDescriptor>)
    requires Sized(r)
  {
    forall i :: 0 <= i < |queue| ==> SlotHolds(r, popped + i, queue[i])
  }

  /** A producer past its check owns the slot it is about to publish. */
  ghost predicate ProducerOk(r: Ring, pushed: nat, popped: nat)
    requires Sized(r)
  {
    match r.pushing
    case Outside => true
    case Called(_) => true
    case LoadedProducer(_, p) => p == r.producer
    case FoundRoom(_, p) => p == r.producer && pushed < popped + r.capacity
    case StoredOffset(d, p) =>
      p == r.producer && pushed < popped + r.capacity && r.offsets[Fold(pushed, r.capacity)] == d.offset
    case StoredLength(d, p) =>
      p == r.producer && pushed < popped + r.capacity && SlotHolds(r, pushed, d)
  }

  /** A consumer past its check reads the front of the queue. */
  ghost predicate ConsumerOk(r: Ring, queue: seq<FrameDescriptor>) {
    match r.popping
    case Away => true
    case Asked => true
    case LoadedConsumer(c) => c == r.consumer
    case FoundItem(c) => c == r.consumer && queue != []
    case LoadedOffset(c, offset) => c == r.consumer && queue != [] && offset == queue[0].offset
    case LoadedLength(c, offset, length) =>
      c == r.consumer && queue != [] && FrameDescriptor(offset, length) == queue[0]
  }

  ghost predicate Inv(r: Ring, pushed: nat, queue: seq<FrameDescriptor>) {
    && Sized(r)
    && |queue| <= pushed
    && Counted(r, pushed, pushed - |queue|)
    && Holds(r, pushed - |queue|, queue)
    && ProducerOk(r, pushed, pushed - |queue|)
    && ConsumerOk(r, queue)
  }

  lemma IndexOfCounter(r: Ring, counter: nat)
    requires Sized(r)
    ensures Index(r, counter % U32_SPAN) == Fold(counter, r.capacity)
  {
    MaskedSlot(counter, r.capacity);
  }

  /** Storing into the slot after the last published one disturbs no unread descriptor. */
  lemma StoreSparesQueue(r: Ring, s: Ring, pushed: nat, queue: seq<FrameDescriptor>)
    requires Inv(r, pushed, queue) && Sized(s) && s.capacity == r.capacity && |queue| < r.capacity
    requires forall k :: 0 <= k < r.capacity && k != Fold(pushed, r.capacity) ==>
               s.offsets[k] == r.offsets[k] && s.lengths[k] == r.lengths[k]
    ensures Holds(s, pushed - |queue|, queue)
  {
    forall i | 0 <= i < |queue| ensures SlotHolds(s, pushed - |queue| + i, queue[i]) {
      assert SlotHolds(r, pushed - |queue| + i, queue[i]);
      SlotsDiffer(pushed - |queue| + i, pushed, r.capacity);
    }
  }

  /** Publishing the producer index appends what the slot holds. */
  lemma PushAdvances(r: Ring, d: FrameDescriptor, pushed: nat, queue: seq<FrameDescriptor>)
    requires Inv(r, pushed, queue) && r.pushing == StoredLength(d, r.producer)
    ensures Inv(r.(producer := WrapAdd(r.producer, 1), pushing := Outside), pushed + 1, queue + [d])
  {
    var s := r.(producer := WrapAdd(r.producer, 1), pushing := Outside);
    WrapAddCounter(pushed, 1);
    forall i | 0 <= i < |queue + [d]| ensures SlotHolds(s, pushed - |queue| + i, (queue + [d])[i]) {
      if i < |queue| { assert SlotHolds(r, pushed - |queue| + i, queue[i]); }
    }
  }

  lemma ProducerRefines(r: Ring, pushed: nat, queue: seq<FrameDescriptor>)
    returns (pushed': nat, queue': seq<FrameDescriptor>)
    requires Inv(r, pushed, queue)
    ensures var (s, seen) := ProducerNext(r);
            && Inv(s, pushed', queue') && QueueStep(queue, r.capacity, seen) == Accepted(queue')
            && pushed' == pushed + |TakenBy(seen)|
  {
    pushed', queue' := pushed, queue;
    var (s, seen) := ProducerNext(r);
    match r.pushing {
      case LoadedProducer(d, p) => WrapDistance(pushed, pushed - |queue|);
      case FoundRoom(d, p) =>
        IndexOfCounter(r, pushed);
        StoreSparesQueue(r, s, pushed, queue);
      case StoredOffset(d, p) =>
        IndexOfCounter(r, pushed);
        StoreSparesQueue(r, s, pushed, queue);
      case StoredLength(d, p) =>
        pushed', queue' := pushed + 1, queue + [d];
        PushAdvances(r, d, pushed, queue);
      case _ =>
    }
  }

  /** Publishing the consumer index drops the front of the queue. */
  lemma PopAdvances(r: Ring, pushed: nat, queue: seq<FrameDescriptor>)
    requires Inv(r, pushed, queue) && queue != []
    ensures Inv(r.(consumer := WrapAdd(r.consumer, 1), popping := Away), pushed, queue[1..])
  {
    var popped := pushed - |queue|;
    var s := r.(consumer := WrapAdd(r.consumer, 1), popping := Away);
    WrapAddCounter(popped, 1);
    forall i | 0 <= i < |queue[1..]| ensures SlotHolds(s, popped + 1 + i, queue[1..][i]) {
      assert SlotHolds(r, popped + (i + 1), queue[i + 1]);
    }
  }

  /** The slot at the consumer index holds the front of the queue. */
  lemma FrontSlot(r: Ring, pushed: nat, queue: seq<FrameDescriptor>)
    requires Inv(r, pushed, queue) && queue != []
    ensures queue[0] == FrameDescriptor(r.offsets[Index(r, r.consumer)], r.lengths[Index(r, r.consumer)])
  {
    IndexOfCounter(r, pushed - |queue|);
    assert SlotHolds(r, pushed - |queue| + 0, queue[0]);
  }

  lemma ConsumerRefines(r: Ring, pushed: nat, queue: seq<FrameDescriptor>) returns (queue': seq<FrameDescriptor>)
    requires Inv(r, pushed, queue)
    ensures var (s, seen) := ConsumerNext(r);
            && Inv(s, pushed, queue') && QueueStep(queue, r.capacity, seen) == Accepted(queue')
            && TakenBy(seen) == []
  {
    queue' := queue;
    var (s, seen) := ConsumerNext(r);
    var popped := pushed - |queue|;
    match r.popping {
      case LoadedConsumer(c) => WrapDistance(pushed, popped);
      case FoundItem(c) => FrontSlot(r, pushed, queue);
      case LoadedOffset(c, offset) => FrontSlot(r, pushed, queue);
      case LoadedLength(c, offset, length) =>
        queue' := queue[1..];
        PopAdvances(r, pushed, queue);
      case _ =>
    }
  }

  /** Every step of either thread is a step of the queue, or invisible. */
  lemma StepRefines(r: Ring, move: Move, pushed: nat, queue: seq<FrameDescriptor>)
    returns (pushed': nat, queue': seq<FrameDescriptor>)
    requires Inv(r, pushed, queue)
    ensures var (s, seen) := Next(r, move);
            && Inv(s, pushed', queue') && QueueStep(queue, r.capacity, seen) == Accepted(queue')
            && pushed' == pushed + |TakenBy(seen)|
  {
    pushed', queue' := pushed, queue;
    match move {
      case ProducerStep => pushed', queue' := ProducerRefines(r, pushed, queue);
      case ConsumerStep => queue' := ConsumerRefines(r, pushed, queue);
      case _ =>
    }
  }

  lemma {:induction false} RunRefines(r: Ring, moves: seq<Move>, pushed: nat, queue: seq<FrameDescriptor>)
    returns (pushed': nat, queue': seq<FrameDescriptor>)
    requires Inv(r, pushed, queue)
    ensures var (last, seen) := Run(r, moves);
            && Inv(last, pushed', queue') && QueueRun(queue, r.capacity, seen) == Accepted(queue')
            && pushed' == pushed + |Taken(seen)|
    decreases |moves|
  {
    if moves == [] {
      return pushed, queue;
    }
    NextSized(r, moves[0]);
    var (next, seen) := Next(r, moves[0]);
    var (last, rest) := Run(next, moves[1..]);
    var p, q := StepRefines(r, moves[0], pushed, queue);
    pushed', queue' := RunRefines(next, moves[1..], p, q);
    assert ([seen] + rest)[1..] == rest;
  }

  /** What is stored between the indices, read back through the u32 arithmetic of the source. */
  function Contents(r: Ring): seq<FrameDescriptor>
    requires Sized(r)
  {
    seq(WrapSub(r.producer, r.consumer), i requires 0 <= i =>
      var slot := Index(r, WrapAdd(r.consumer, i)); FrameDescriptor(r.offsets[slot], r.lengths[slot]))
  }

  lemma ContentsIsQueue(r: Ring, pushed: nat, queue: seq<FrameDescriptor>)
    requires Inv(r, pushed, queue)
    ensures Contents(r) == queue
  {
    var popped := pushed - |queue|;
    WrapDistance(pushed, popped);
    forall i | 0 <= i < |queue| ensures Contents(r)[i] == queue[i] {
      assert SlotHolds(r, popped + i, queue[i]);
      WrapAddCounter(popped, i);
      IndexOfCounter(r, popped + i);
    }
  }

  /** Whatever the schedule, the callers of a new ring see a first-in first-out queue of its capacity,
      and the slots between the indices are that queue. */
  lemma RefinesBoundedQueue(capacity: nat, moves: seq<Move>)
    requires New(capacity).Ok?
    ensures var (last, seen) := Run(New(capacity).ring, moves);
            Sized(last) && QueueRun([], capacity, seen) == Accepted(Contents(last))
  {
    var pushed, queue := RunRefines(New(capacity).ring, moves, 0, []);
    ContentsIsQueue(Run(New(capacity).ring, moves).0, pushed, queue);
  }

  // ---- Calls that nobody interrupts ----

  /** A whole `try_push` that found room, as one update. */
  function Pushed(r: Ring, d: FrameDescriptor): Ring
    requires Sized(r)
  {
    var slot := Index(r, r.producer);
    r.(offsets := r.offsets[slot := d.offset], lengths := r.lengths[slot := d.length],
        producer := WrapAdd(r.producer, 1))
  }

  lemma PushAlone(r: Ring, d: FrameDescriptor, pushed: nat, queue: seq<FrameDescriptor>)
    requires Inv(r, pushed, queue) && r.pushing.Outside?
    ensures WrapSub(r.producer, r.consumer) == |queue|
    ensures |queue| < r.capacity ==> Inv(Pushed(r, d), pushed + 1, queue + [d])
  {
    WrapDistance(pushed, pushed - |queue|);
    if |queue| < r.capacity {
      IndexOfCounter(r, pushed);
      var slot := Index(r, r.producer);
      var s := r.(offsets := r.offsets[slot := d.offset], lengths := r.lengths[slot := d.length],
          pushing := StoredLength(d, r.producer));
      StoreSparesQueue(r, s, pushed, queue);
      PushAdvances(s, d, pushed, queue);
    }
  }

  lemma PopAlone(r: Ring, pushed: nat, queue: seq<FrameDescriptor>)
    requires Inv(r, pushed, queue) && r.popping.Away?
    ensures r.consumer == r.producer <==> queue == []
    ensures queue != [] ==>
      && queue[0] == FrameDescriptor(r.offsets[Index(r, r.consumer)], r.lengths[Index(r, r.consumer)])
      && Inv(r.(consumer := WrapAdd(r.consumer, 1)), pushed, queue[1..])
  {
    WrapDistance(pushed, pushed - |queue|);
    if queue != [] {
      FrontSlot(r, pushed, queue);
      PopAdvances(r, pushed, queue);
    }
  }

  // ---- Conservation ----

  function TakenBy(seen: Seen): seq<FrameDescriptor> {
    if seen.PushReturned? && seen.accepted then [seen.d] else []
  }

  function DeliveredBy(seen: Seen): seq<FrameDescriptor> {
    if seen.PopReturned? && seen.item.Some? then [seen.item.value] else []
  }

  /** Descriptors whose push was acknowledged, and descriptors delivered, in order. */
  function Taken(seen: seq<Seen>): seq<FrameDescriptor> {
    if seen == [] then [] else TakenBy(seen[0]) + Taken(seen[1..])
  }

  function Delivered(seen: seq<Seen>): seq<FrameDescriptor> {
    if seen == [] then [] else DeliveredBy(seen[0]) + Delivered(seen[1..])
  }

  lemma QueueStepConserves(queue: seq<FrameDescriptor>, capacity: nat, seen: Seen)
    requires |queue| <= capacity && QueueStep(queue, capacity, seen).Accepted?
    ensures var next := QueueStep(queue, capacity, seen).queue;
            queue + TakenBy(seen) == DeliveredBy(seen) + next && |next| <= capacity
  {}

  lemma {:induction false} QueueConserves(queue: seq<FrameDescriptor>, capacity: nat, seen: seq<Seen>)
    requires |queue| <= capacity && QueueRun(queue, capacity, seen).Accepted?
    ensures var last := QueueRun(queue, capacity, seen).queue;
            queue + Taken(seen) == Delivered(seen) + last && |last| <= capacity
    decreases |seen|
  {
    if seen != [] {
      var next := QueueStep(queue, capacity, seen[0]).queue;
      QueueStepConserves(queue, capacity, seen[0]);
      QueueConserves(next, capacity, seen[1..]);
      var last := QueueRun(queue, capacity, seen).queue;
      var took, gave := Taken(seen[1..]), Delivered(seen[1..]);
      Reassociate(queue, TakenBy(seen[0]), took);
      Reassociate(DeliveredBy(seen[0]), next, took);
      Reassociate(DeliveredBy(seen[0]), gave, last);
    }
  }

  /** Nothing is lost, duplicated, torn or reordered: what was accepted is what was delivered followed
      by what is still in the slots, and never more than the capacity is in the slots. */
  lemma NothingLost(capacity: nat, moves: seq<Move>)
    requires New(capacity).Ok?
    ensures var (last, seen) := Run(New(capacity).ring, moves);
            Sized(last) && Taken(seen) == Delivered(seen) + Contents(last) && |Contents(last)| <= capacity
  {
    RefinesBoundedQueue(capacity, moves);
    var (last, seen) := Run(New(capacity).ring, moves);
    QueueConserves([], capacity, seen);
    assert [] + Taken(seen) == Taken(seen);
  }
}
