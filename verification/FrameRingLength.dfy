/** `len` called while either thread moves: its two loads are two steps of the machine, and what happens
    between them decides what it means. */
module FrameRingLength {
  import opened Bits
  import opened Common
  import opened FrameRing

  /** The producer index is loaded from one ring, the consumer index from a later one. */
  function Len(first: Ring, later: Ring): nat {
    var n := WrapSub(first.producer, later.consumer);
    if n > first.capacity then first.capacity else n
  }

  lemma WrapSubCounters(a: nat, b: nat)
    ensures WrapSub(a % U32_SPAN, b % U32_SPAN) == (a - b) % U32_SPAN
  {
    var p, q := a / U32_SPAN, b / U32_SPAN;
    assert a - b == (p - q) * U32_SPAN + (a % U32_SPAN - b % U32_SPAN);
  }

  /** How the contents change over a stretch of a run: by what was taken and what was delivered. */
  lemma Stretch(r: Ring, moves: seq<Move>, pushed: nat, queue: seq<FrameDescriptor>)
    returns (pushed': nat, queue': seq<FrameDescriptor>)
    requires Inv(r, pushed, queue)
    ensures var (last, seen) := Run(r, moves);
            && Inv(last, pushed', queue') && last.capacity == r.capacity
            && |queue| + |Taken(seen)| == |Delivered(seen)| + |queue'|
            && pushed' - |queue'| == pushed - |queue| + |Delivered(seen)|
  {
    pushed', queue' := RunRefines(r, moves, pushed, queue);
    var (last, seen) := Run(r, moves);
    QueueConserves(queue, r.capacity, seen);
    assert |queue + Taken(seen)| == |Delivered(seen) + queue'|;
    RunCapacity(r, moves);
  }

  lemma {:induction false} RunCapacity(r: Ring, moves: seq<Move>)
    requires Sized(r)
    ensures Run(r, moves).0.capacity == r.capacity && Sized(Run(r, moves).0)
    decreases |moves|
  {
    if moves != [] {
      NextSized(r, moves[0]);
      RunCapacity(Next(r, moves[0]).0, moves[1..]);
    }
  }

  /** A u32 difference, clipped. */
  function Clip(n: int, capacity: nat): nat {
    if n % U32_SPAN > capacity then capacity else n % U32_SPAN
  }

  lemma LenOfCounters(
      first: Ring, pushed: nat, queue: seq<FrameDescriptor>,
      later: Ring, pushed': nat, queue': seq<FrameDescriptor>, delivered: nat)
    requires Inv(first, pushed, queue) && Inv(later, pushed', queue')
    requires pushed' - |queue'| == pushed - |queue| + delivered
    ensures Len(first, later) == Clip(|queue| - delivered, first.capacity)
  {
    WrapSubCounters(pushed, pushed' - |queue'|);
  }

  /** Contents and `len` around two stretches of a run. */
  lemma TwoStretches(first: Ring, pushed: nat, queue: seq<FrameDescriptor>, a: seq<Move>, b: seq<Move>)
    requires Inv(first, pushed, queue)
    ensures |queue| <= first.capacity <= 0x10_0000
    ensures var (mid, seenA) := Run(first, a);
            && Sized(mid)
            && var (later, seenB) := Run(mid, b);
               && Sized(later)
               && Contents(first) == queue
               && |queue| + |Taken(seenA)| == |Delivered(seenA)| + |Contents(mid)|
               && |Contents(mid)| + |Taken(seenB)| == |Delivered(seenB)| + |Contents(later)|
               && Len(first, later) == Clip(|queue| - |Delivered(seenA)| - |Delivered(seenB)|, first.capacity)
  {
    ContentsIsQueue(first, pushed, queue);
    var pushedA, queueA := Stretch(first, a, pushed, queue);
    var (mid, seenA) := Run(first, a);
    ContentsIsQueue(mid, pushedA, queueA);
    var pushedB, queueB := Stretch(mid, b, pushedA, queueA);
    var (later, seenB) := Run(mid, b);
    ContentsIsQueue(later, pushedB, queueB);
    LenOfCounters(first, pushed, queue, later, pushedB, queueB, |Delivered(seenA)| + |Delivered(seenB)|);
  }

  /** A ring some run leads to. */
  ghost predicate Reachable(r: Ring, capacity: nat) {
    exists moves: seq<Move> :: LeadsTo(capacity, moves, r)
  }

  ghost predicate LeadsTo(capacity: nat, moves: seq<Move>, r: Ring) {
    New(capacity).Ok? && r == Run(New(capacity).ring, moves).0
  }

  lemma ReachableInv(r: Ring, capacity: nat) returns (pushed: nat, queue: seq<FrameDescriptor>)
    requires Reachable(r, capacity)
    ensures Inv(r, pushed, queue) && r.capacity == capacity
  {
    var moves :| LeadsTo(capacity, moves, r);
    pushed, queue := Stretch(New(capacity).ring, moves, 0, []);
  }

  /** What `len` returns, whatever happens between its loads: the length at the first load less the
      descriptors delivered since, wrapped and clipped.  As long as no more was delivered than was there, it
      is never more than the length at any moment of the call. */
  lemma LenDuringCall(capacity: nat, first: Ring, a: seq<Move>, b: seq<Move>)
    requires Reachable(first, capacity)
    ensures Sized(first)
    ensures var (mid, seenA) := Run(first, a);
            && Sized(mid)
            && var (later, seenB) := Run(mid, b);
               var left := |Contents(first)| - |Delivered(seenA)| - |Delivered(seenB)|;
               && Sized(later)
               && Len(first, later) == Clip(left, capacity)
               && (left >= 0 ==> Len(first, later) == left && left <= |Contents(mid)| && left <= |Contents(later)|)
  {
    var pushed, queue := ReachableInv(first, capacity);
    TwoStretches(first, pushed, queue, a, b);
    var (mid, seenA) := Run(first, a);
    var (later, seenB) := Run(mid, b);
    ClipWithin(|queue|, |Taken(seenA)|, |Delivered(seenA)|, |Contents(mid)|,
      |Taken(seenB)|, |Delivered(seenB)|, |Contents(later)|, capacity);
  }

  lemma ClipWithin(
      there: nat, takenA: nat, deliveredA: nat, mid: nat, takenB: nat, deliveredB: nat, after: nat, capacity: nat)
    requires there <= capacity <= 0x10_0000 && there + takenA == deliveredA + mid && mid + takenB == deliveredB + after
    ensures var left := there - deliveredA - deliveredB;
            left >= 0 ==> Clip(left, capacity) == left && left <= mid && left <= after
  {}

  /** Called by the consumer, which delivers nothing meanwhile, `len` is exact at its first load; called by
      the producer, which takes nothing meanwhile, it is exact at its second.  Unless the caller is overtaken,
      these are the only ways for it to be exact there.  A third thread that is overtaken, by fewer descriptors
      than the counters can tell apart, sees the capacity. */
  lemma LenByCaller(capacity: nat, first: Ring, during: seq<Move>)
    requires Reachable(first, capacity)
    ensures Sized(first)
    ensures var (later, seen) := Run(first, during);
            var delivered, there := |Delivered(seen)|, |Contents(first)|;
            && Sized(later)
            && (delivered == 0 ==> Len(first, later) == there)
            && (Taken(seen) == [] ==> Len(first, later) == |Contents(later)|)
            && (delivered <= there ==>
                  && (Len(first, later) == there <==> delivered == 0)
                  && (Len(first, later) == |Contents(later)| <==> Taken(seen) == []))
            && (there < delivered <= there + U32_SPAN - capacity ==> Len(first, later) == capacity)
  {
    var pushed, queue := ReachableInv(first, capacity);
    OneStretch(first, pushed, queue, during);
    var (later, seen) := Run(first, during);
    ClipCases(|queue|, |Taken(seen)|, |Delivered(seen)|, |Contents(later)|, capacity);
  }

  lemma OneStretch(first: Ring, pushed: nat, queue: seq<FrameDescriptor>, moves: seq<Move>)
    requires Inv(first, pushed, queue)
    ensures Contents(first) == queue && |queue| <= first.capacity <= 0x10_0000
    ensures var (later, seen) := Run(first, moves);
            && Sized(later) && |Contents(later)| <= first.capacity
            && |queue| + |Taken(seen)| == |Delivered(seen)| + |Contents(later)|
            && Len(first, later) == Clip(|queue| - |Delivered(seen)|, first.capacity)
  {
    ContentsIsQueue(first, pushed, queue);
    var pushed', queue' := Stretch(first, moves, pushed, queue);
    var (later, seen) := Run(first, moves);
    ContentsIsQueue(later, pushed', queue');
    LenOfCounters(first, pushed, queue, later, pushed', queue', |Delivered(seen)|);
  }

  lemma ClipCases(there: nat, taken: nat, delivered: nat, after: nat, capacity: nat)
    requires there <= capacity <= 0x10_0000 && after <= capacity && there + taken == delivered + after
    ensures delivered == 0 ==> Clip(there - delivered, capacity) == there
    ensures taken == 0 ==> Clip(there - delivered, capacity) == after
    ensures delivered <= there ==> (Clip(there - delivered, capacity) == there <==> delivered == 0)
    ensures delivered <= there ==> (Clip(there - delivered, capacity) == after <==> taken == 0)
    ensures there < delivered <= there + U32_SPAN - capacity ==> Clip(there - delivered, capacity) == capacity
  {}

  // ---- Calls that nobody interrupts, and a caller that is overtaken ----

  ghost predicate Runs(r: Ring, moves: seq<Move>, last: Ring, seen: seq<Seen>) {
    Sized(r) && Sized(last) && Run(r, moves) == (last, seen)
  }

  lemma RunsNone(r: Ring)
    requires Sized(r)
    ensures Runs(r, [], r, [])
  {}

  lemma RunsCons(r: Ring, move: Move, next: Ring, s: Seen, rest: seq<Move>, last: Ring, seen: seq<Seen>)
    requires Sized(r) && Next(r, move) == (next, s) && Runs(next, rest, last, seen)
    ensures Runs(r, [move] + rest, last, [s] + seen)
  {
    assert ([move] + rest)[1..] == rest;
  }

  lemma {:induction false} RunsConcat(
      r: Ring, a: seq<Move>, mid: Ring, seenA: seq<Seen>, b: seq<Move>, last: Ring, seenB: seq<Seen>)
    requires Runs(r, a, mid, seenA) && Runs(mid, b, last, seenB)
    ensures Runs(r, a + b, last, seenA + seenB)
    decreases |a|
  {
    if a == [] {
      assert a + b == b && seenA + seenB == seenB;
    } else {
      NextSized(r, a[0]);
      var (next, s) := Next(r, a[0]);
      var rest := Run(next, a[1..]).1;
      RunsConcat(next, a[1..], mid, rest, b, last, seenB);
      RunsCons(r, a[0], next, s, a[1..] + b, last, rest + seenB);
      assert a + b == [a[0]] + (a[1..] + b) && seenA + seenB == [s] + (rest + seenB);
    }
  }

  /** The steps of a call by a thread that is left alone, and what they let it see. */
  function StepsOf(call: Move, step: Move): seq<Move> {
    [call] + ([step] + ([step] + ([step] + ([step] + ([step] + [])))))
  }

  function SeenOf(seen: Seen): seq<Seen> {
    [Nothing] + ([Nothing] + ([Nothing] + ([Nothing] + ([Nothing] + ([seen] + [])))))
  }

  /** Six steps in a row. */
  lemma SixSteps(
      call: Move, step: Move, seen: Seen, r: Ring, r1: Ring, r2: Ring, r3: Ring, r4: Ring, r5: Ring, r6: Ring)
    requires Sized(r) && Sized(r1) && Sized(r2) && Sized(r3) && Sized(r4) && Sized(r5) && Sized(r6)
    requires Next(r, call) == (r1, Nothing) && Next(r1, step) == (r2, Nothing) && Next(r2, step) == (r3, Nothing)
    requires Next(r3, step) == (r4, Nothing) && Next(r4, step) == (r5, Nothing) && Next(r5, step) == (r6, seen)
    ensures Runs(r, StepsOf(call, step), r6, SeenOf(seen))
  {
    RunsNone(r6);
    var m1, s1 := [step] + [], [seen] + [];
    RunsCons(r5, step, r6, seen, [], r6, []);
    RunsCons(r4, step, r5, Nothing, m1, r6, s1);
    RunsCons(r3, step, r4, Nothing, [step] + m1, r6, [Nothing] + s1);
    var m3, s3 := [step] + ([step] + m1), [Nothing] + ([Nothing] + s1);
    RunsCons(r2, step, r3, Nothing, m3, r6, s3);
    RunsCons(r1, step, r2, Nothing, [step] + m3, r6, [Nothing] + s3);
    RunsCons(r, call, r1, Nothing, [step] + ([step] + m3), r6, [Nothing] + ([Nothing] + s3));
  }

  /** A whole `try_push` with room is one update, seen as one acceptance. */
  lemma PushRuns(r: Ring, d: FrameDescriptor, pushed: nat, queue: seq<FrameDescriptor>)
    requires Inv(r, pushed, queue) && r.pushing.Outside? && |queue| < r.capacity
    ensures Runs(r, StepsOf(Push(d), ProducerStep), Pushed(r, d), SeenOf(PushReturned(d, true)))
  {
    WrapDistance(pushed, pushed - |queue|);
    var slot := Index(r, r.producer);
    var r1 := r.(pushing := Called(d));
    var r2 := r.(pushing := LoadedProducer(d, r.producer));
    var r3 := r.(pushing := FoundRoom(d, r.producer));
    var r4 := r.(offsets := r.offsets[slot := d.offset], pushing := StoredOffset(d, r.producer));
    var r5 := r4.(lengths := r4.lengths[slot := d.length], pushing := StoredLength(d, r.producer));
    SixSteps(Push(d), ProducerStep, PushReturned(d, true), r, r1, r2, r3, r4, r5, Pushed(r, d));
  }

  /** A whole `try_pop` of a ring that is not empty advances the index, seen as delivery of the front. */
  lemma PopRuns(r: Ring, pushed: nat, queue: seq<FrameDescriptor>)
    requires Inv(r, pushed, queue) && r.popping.Away? && queue != []
    ensures Runs(r, StepsOf(Pop, ConsumerStep), r.(consumer := WrapAdd(r.consumer, 1)),
        SeenOf(PopReturned(Some(queue[0]))))
  {
    PopAlone(r, pushed, queue);
    var c, d := r.consumer, queue[0];
    var r1, r2 := r.(popping := Asked), r.(popping := LoadedConsumer(c));
    var r3, r4 := r.(popping := FoundItem(c)), r.(popping := LoadedOffset(c, d.offset));
    var r5 := r.(popping := LoadedLength(c, d.offset, d.length));
    SixSteps(Pop, ConsumerStep, PopReturned(Some(d)), r, r1, r2, r3, r4, r5, r.(consumer := WrapAdd(c, 1)));
  }

  /** A ring that is empty at both loads, whose length a third thread sees as the capacity: one push and one
      pop fall between them. */
  lemma OvertakenSeesCapacity(capacity: nat, d: FrameDescriptor)
    requires New(capacity).Ok?
    ensures var first := New(capacity).ring;
            var moves := StepsOf(Push(d), ProducerStep) + StepsOf(Pop, ConsumerStep);
            var later := Run(first, moves).0;
            Sized(later) && Contents(first) == [] && Contents(later) == [] && Len(first, later) == capacity
  {
    var first := New(capacity).ring;
    PushAlone(first, d, 0, []);
    PushRuns(first, d, 0, []);
    var mid := Pushed(first, d);
    PopAlone(mid, 1, [d]);
    PopRuns(mid, 1, [d]);
    var later := mid.(consumer := WrapAdd(mid.consumer, 1));
    RunsConcat(first, StepsOf(Push(d), ProducerStep), mid, SeenOf(PushReturned(d, true)),
      StepsOf(Pop, ConsumerStep), later, SeenOf(PopReturned(Some(d))));
    ContentsIsQueue(first, 0, []);
    ContentsIsQueue(later, 1, []);
  }

  // ---- When `len` never overstates ----

  /** How many descriptors the ring holds after the first n moves. */
  function LengthAt(r: Ring, moves: seq<Move>, n: nat): nat
    requires Sized(r) && n <= |moves|
  {
    RunCapacity(r, moves[..n]);
    |Contents(Run(r, moves[..n]).0)|
  }

  /** At no moment of the call does the ring hold fewer descriptors than `len` returns. */
  ghost predicate NeverOverstates(first: Ring, during: seq<Move>)
    requires Sized(first)
  {
    forall n :: 0 <= n <= |during| ==> Len(first, Run(first, during).0) <= LengthAt(first, during, n)
  }

  lemma {:induction false} DeliveredConcat(a: seq<Seen>, b: seq<Seen>)
    ensures Delivered(a + b) == Delivered(a) + Delivered(b)
  {
    if a == [] {
      assert a + b == b;
    } else {
      assert (a + b)[0] == a[0] && (a + b)[1..] == a[1..] + b;
      DeliveredConcat(a[1..], b);
    }
  }

  /** A run cut in two. */
  lemma CutRun(r: Ring, moves: seq<Move>, n: nat)
    requires Sized(r) && n <= |moves|
    ensures var (mid, seenA) := Run(r, moves[..n]);
            && Sized(mid)
            && Run(r, moves).0 == Run(mid, moves[n..]).0
            && Delivered(Run(r, moves).1) == Delivered(seenA) + Delivered(Run(mid, moves[n..]).1)
  {
    var (mid, seenA) := Run(r, moves[..n]);
    RunCapacity(r, moves[..n]);
    var (last, seenB) := Run(mid, moves[n..]);
    RunCapacity(mid, moves[n..]);
    RunsConcat(r, moves[..n], mid, seenA, moves[n..], last, seenB);
    assert moves[..n] + moves[n..] == moves;
    DeliveredConcat(seenA, seenB);
  }

  /** After a delivery there is room. */
  lemma {:induction false} DeliveryLeavesRoom(r: Ring, moves: seq<Move>, pushed: nat, queue: seq<FrameDescriptor>)
    returns (n: nat)
    requires Inv(r, pushed, queue) && Delivered(Run(r, moves).1) != []
    ensures n <= |moves| && LengthAt(r, moves, n) < r.capacity
    decreases |moves|
  {
    var (next, seen) := Next(r, moves[0]);
    NextSized(r, moves[0]);
    var pushed', queue' := StepRefines(r, moves[0], pushed, queue);
    if DeliveredBy(seen) != [] {
      n := 1;
      assert moves[..1] == [moves[0]] && [moves[0]][1..] == [];
      assert Run(r, moves[..1]).0 == Run(next, []).0 == next;
      ContentsIsQueue(next, pushed', queue');
    } else {
      var i := DeliveryLeavesRoom(next, moves[1..], pushed', queue');
      n := i + 1;
      assert moves[..n][0] == moves[0] && moves[..n][1..] == moves[1..][..i];
    }
  }

  /** `len` overstates exactly when it is overtaken: more is delivered between its loads than was there at the
      first.  Beyond four thousand million deliveries the counters cannot tell. */
  lemma NeverOverstatesIff(capacity: nat, first: Ring, during: seq<Move>)
    requires Reachable(first, capacity)
    ensures Sized(first)
    ensures var delivered, there := |Delivered(Run(first, during).1)|, |Contents(first)|;
            delivered <= there + U32_SPAN - capacity ==>
              (NeverOverstates(first, during) <==> delivered <= there)
  {
    var pushed, queue := ReachableInv(first, capacity);
    var delivered, there := |Delivered(Run(first, during).1)|, |Contents(first)|;
    if delivered <= there {
      forall n | 0 <= n <= |during| ensures Len(first, Run(first, during).0) <= LengthAt(first, during, n) {
        CutRun(first, during, n);
        LenDuringCall(capacity, first, during[..n], during[n..]);
      }
    } else if delivered <= there + U32_SPAN - capacity {
      LenByCaller(capacity, first, during);
      var n := DeliveryLeavesRoom(first, during, pushed, queue);
      assert LengthAt(first, during, n) < capacity;
    }
  }
}
