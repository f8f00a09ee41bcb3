/** Packet buffers of the DPDK backend: who owns each one from the moment the driver hands it over
    until it is freed or accepted for sending. */
module Mbufs {
  import opened Common

  type Mbuf = nat

  /** One entry of the receive array; no mbuf is a null pointer, and so is no data. */
  datatype RxPacket = RxPacket(mbuf: Option<Mbuf>, hasData: bool, dataLen: nat, packetLen: nat)

  const EMPTY := RxPacket(None, false, 0, 0)

  datatype View = View(mbuf: Mbuf, bytes: seq<Byte>, packetLen: nat)

  // ---- The driver ----

  /** The driver side.  `held` are the mbufs this process owns, with their contents: freeing, reading
      and sending are allowed on these only. */
  class Driver {
    ghost var held: map<Mbuf, seq<Byte>>
    ghost var frees: nat
    ghost var allocations: nat
    /** Frames the device has accepted, in order. */
    ghost var sent: seq<seq<Byte>>

    /** `rte_pktmbuf_free` */
    method Free(m: Mbuf)
      requires m in held
      modifies this`held, this`frees
      ensures held == old(held) - {m} && frees == old(frees) + 1
    {
      held, frees := held - {m}, frees + 1;
    }

    /** `rte_pktmbuf_alloc_bulk`, for the buffers it picks. */
    method AllocBulk(names: seq<Mbuf>)
      requires forall i :: 0 <= i < |names| ==> names[i] !in held
      modifies this`held, this`allocations
      ensures allocations == old(allocations) + |names|
      ensures held.Keys == old(held).Keys + Set(names)
      ensures forall m :: m in old(held) ==> held[m] == old(held)[m]
      ensures forall i :: 0 <= i < |names| ==> held[names[i]] == []
    {
      ghost var before, all := held, held.Keys + Set(names);
      held := map m | m in all :: if m in before then before[m] else [];
      allocations := allocations + |names|;
    }

    /** `rte_pktmbuf_append` and the copy after it. */
    method Append(m: Mbuf, data: seq<Byte>)
      requires m in held
      modifies this`held
      ensures held == old(held)[m := old(held)[m] + data]
    {
      held := held[m := held[m] + data];
    }

    /** `rte_eth_tx_burst` taking the first n of the buffers. */
    method TxBurst(mbufs: seq<Mbuf>, n: nat)
      requires n <= |mbufs| && forall i :: 0 <= i < |mbufs| ==> mbufs[i] in held
      modifies this`held, this`sent
      ensures held == old(held) - Set(mbufs[..n])
      ensures sent == old(sent) + Contents(old(held), mbufs[..n])
    {
      sent := sent + Contents(held, mbufs[..n]);
      held := held - Set(mbufs[..n]);
    }
  }

  ghost function Contents(held: map<Mbuf, seq<Byte>>, mbufs: seq<Mbuf>): seq<seq<Byte>>
    requires forall i :: 0 <= i < |mbufs| ==> mbufs[i] in held
  {
    if mbufs == [] then [] else [held[mbufs[0]]] + Contents(held, mbufs[1..])
  }

  ghost function Set(mbufs: seq<Mbuf>): set<Mbuf> {
    set m | m in mbufs
  }

  ghost predicate Distinct(mbufs: seq<Mbuf>) {
    forall i, j :: 0 <= i < j < |mbufs| ==> mbufs[i] != mbufs[j]
  }

  // ---- Receiving ----

  predicate Malformed(p: RxPacket) {
    p.mbuf.None? || (!p.hasData && p.dataLen != 0) || p.dataLen > p.packetLen
  }

  function MbufOf(p: RxPacket): set<Mbuf> {
    if p.mbuf.Some? then {p.mbuf.value} else {}
  }

  /** The mbufs of the entries that hold one. */
  function Owned(packets: seq<RxPacket>): set<Mbuf> {
    if packets == [] then {} else MbufOf(packets[0]) + Owned(packets[1..])
  }

  lemma {:induction false} OwnedConcat(a: seq<RxPacket>, b: seq<RxPacket>)
    ensures Owned(a + b) == Owned(a) + Owned(b)
  {
    if a == [] {
      assert a + b == b;
    } else {
      assert (a + b)[0] == a[0] && (a + b)[1..] == a[1..] + b;
      OwnedConcat(a[1..], b);
    }
  }

  function OwnedCount(packets: seq<RxPacket>): nat {
    if packets == [] then 0 else (if packets[0].mbuf.Some? then 1 else 0) + OwnedCount(packets[1..])
  }

  lemma {:induction false} CountConcat(a: seq<RxPacket>, b: seq<RxPacket>)
    ensures OwnedCount(a + b) == OwnedCount(a) + OwnedCount(b)
  {
    if a == [] {
      assert a + b == b;
    } else {
      assert (a + b)[0] == a[0] && (a + b)[1..] == a[1..] + b;
      CountConcat(a[1..], b);
    }
  }

  lemma OwnedSnoc(packets: seq<RxPacket>, k: nat)
    requires k < |packets|
    ensures Owned(packets[..k + 1]) == Owned(packets[..k]) + MbufOf(packets[k])
    ensures OwnedCount(packets[..k + 1]) == OwnedCount(packets[..k]) + if packets[k].mbuf.Some? then 1 else 0
  {
    assert packets[..k + 1] == packets[..k] + [packets[k]];
    OwnedConcat(packets[..k], [packets[k]]);
    CountConcat(packets[..k], [packets[k]]);
    assert Owned([packets[k]]) == MbufOf(packets[k]) + Owned([]);
  }

  lemma {:induction false} OwnedIn(packets: seq<RxPacket>, m: Mbuf)
    requires m in Owned(packets)
    ensures exists i :: 0 <= i < |packets| && packets[i].mbuf == Some(m)
  {
    if m in MbufOf(packets[0]) {
      assert packets[0].mbuf == Some(m);
    } else {
      OwnedIn(packets[1..], m);
      var i :| 0 <= i < |packets| - 1 && packets[1..][i].mbuf == Some(m);
      assert packets[i + 1].mbuf == Some(m);
    }
  }

  /** What the driver promises of a burst: every mbuf is ours, no two entries share one, and a
      well-formed entry has the data it claims. */
  ghost predicate HandedOver(packets: seq<RxPacket>, held: map<Mbuf, seq<Byte>>) {
    && (forall i :: 0 <= i < |packets| && packets[i].mbuf.Some? ==> packets[i].mbuf.value in held)
    && (forall i :: 0 <= i < |packets| && !Malformed(packets[i]) ==>
          packets[i].dataLen <= |held[packets[i].mbuf.value]|)
    && (forall i, j :: 0 <= i < j < |packets| && packets[i].mbuf.Some? ==> packets[i].mbuf != packets[j].mbuf)
  }

  lemma NotYetFreed(packets: seq<RxPacket>, k: nat, i: nat, held: map<Mbuf, seq<Byte>>)
    requires k <= i < |packets| && HandedOver(packets, held) && packets[i].mbuf.Some?
    ensures packets[i].mbuf.value !in Owned(packets[..k])
  {
    if packets[i].mbuf.value in Owned(packets[..k]) {
      OwnedIn(packets[..k], packets[i].mbuf.value);
    }
  }

  /** How many entries come before the first malformed one. */
  function GoodPrefix(packets: seq<RxPacket>): (n: nat)
    ensures n <= |packets|
    ensures forall i :: 0 <= i < n ==> !Malformed(packets[i])
    ensures n < |packets| ==> Malformed(packets[n])
  {
    if packets == [] || Malformed(packets[0]) then 0 else 1 + GoodPrefix(packets[1..])
  }

  ghost function ViewOf(p: RxPacket, held: map<Mbuf, seq<Byte>>): View
    requires p.mbuf.Some? && p.mbuf.value in held && p.dataLen <= |held[p.mbuf.value]|
  {
    View(p.mbuf.value, held[p.mbuf.value][..p.dataLen], p.packetLen)
  }

  datatype Received = Ok(count: nat) | Err | Unwound

  class RxQueue {
    const driver: Driver
    const packets: array<RxPacket>
    /** What the consumer was shown. */
    ghost var seen: seq<View>

    constructor (d: Driver, capacity: nat)
      ensures driver == d && packets.Length == capacity && fresh(packets) && seen == []
    {
      driver, packets, seen := d, new RxPacket[capacity](i => EMPTY), [];
    }

    /** The guard's drop: gives back what the first n entries still own. */
    method ReleaseBurst(n: nat)
      requires n <= packets.Length && HandedOver(packets[..n], driver.held)
      modifies packets, driver`held, driver`frees
      ensures driver.held == old(driver.held) - Owned(old(packets[..n]))
      ensures driver.frees == old(driver.frees) + OwnedCount(old(packets[..n]))
      ensures forall i :: 0 <= i < n ==> packets[i].mbuf.None?
    {
      ghost var all := packets[..n];
      for k := 0 to n
        invariant forall i :: 0 <= i < k ==> packets[i].mbuf.None?
        invariant forall i :: k <= i < n ==> packets[i] == all[i]
        invariant driver.held == old(driver.held) - Owned(all[..k])
        invariant driver.frees == old(driver.frees) + OwnedCount(all[..k])
      {
        OwnedSnoc(all, k);
        if packets[k].mbuf.Some? {
          NotYetFreed(all, k, k, old(driver.held));
          driver.Free(packets[k].mbuf.value);
          packets[k] := EMPTY;
        }
      }
      assert all[..n] == all;
    }

    /** `receive_burst` for the entries the driver wrote, with a consumer that panics in the call with
        number `panicsAt`.  However the loop ends, every mbuf of the burst has been given back, once,
        and no entry still names one. */
    method ReceiveBurst(burst: seq<RxPacket>, panicsAt: nat) returns (r: Received)
      requires |burst| <= packets.Length && HandedOver(burst, driver.held)
      modifies this`seen, packets, driver`held, driver`frees
      ensures driver.held == old(driver.held) - Owned(burst) && driver.frees == old(driver.frees) + OwnedCount(burst)
      ensures forall i :: 0 <= i < |burst| ==> packets[i].mbuf.None?
      ensures var good := GoodPrefix(burst);
              && (r == if panicsAt < good then Unwound else if good < |burst| then Err else Ok(|burst|))
              && seen == old(seen) + Views(burst[..if panicsAt < good then panicsAt + 1 else good], old(driver.held))
    {
      Fill(burst);
      var index;
      index, r := ConsumeBurst(burst, panicsAt);
      GuardKeeps(burst, packets[..|burst|], index, old(driver.held), driver.held);
      ReleaseBurst(|burst|);
    }

    /** The loop has freed the entries before this one and left the others as they were. */
    ghost predicate Reached(burst: seq<RxPacket>, index: nat, before: map<Mbuf, seq<Byte>>, frees: nat)
      reads this, packets, driver
    {
      && index <= |burst| <= packets.Length
      && (forall i :: 0 <= i < index ==> packets[i] == EMPTY)
      && (forall i :: index <= i < |burst| ==> packets[i] == burst[i])
      && driver.held == before - Owned(burst[..index])
      && driver.frees == frees + OwnedCount(burst[..index])
    }

    /** Lends the consumer the bytes of an entry whose mbuf is still ours. */
    method Show(
        ghost burst: seq<RxPacket>, index: nat, ghost before: map<Mbuf, seq<Byte>>, ghost frees: nat,
        ghost earlier: seq<View>)
      requires index < |burst| && HandedOver(burst, before) && !Malformed(burst[index])
      requires Reached(burst, index, before, frees)
      requires seen == earlier + Views(burst[..index], before)
      modifies this`seen
      ensures seen == earlier + Views(burst[..index + 1], before)
    {
      NotYetFreed(burst, index, index, before);
      ViewsSnoc(burst, index, before);
      seen := seen + [ViewOf(packets[index], driver.held)];
    }

    method FreeEntry(ghost burst: seq<RxPacket>, index: nat, ghost before: map<Mbuf, seq<Byte>>, ghost frees: nat)
      requires index < |burst| && HandedOver(burst, before) && burst[index].mbuf.Some?
      requires Reached(burst, index, before, frees)
      modifies packets, driver`held, driver`frees
      ensures Reached(burst, index + 1, before, frees)
    {
      NotYetFreed(burst, index, index, before);
      OwnedSnoc(burst, index);
      driver.Free(packets[index].mbuf.value);
      packets[index] := EMPTY;
    }

    /** The loop over the burst; the guard still owns the entries from `index` on. */
    method ConsumeBurst(burst: seq<RxPacket>, panicsAt: nat) returns (index: nat, r: Received)
      requires |burst| <= packets.Length && HandedOver(burst, driver.held)
      requires forall i :: 0 <= i < |burst| ==> packets[i] == burst[i]
      modifies this`seen, packets, driver`held, driver`frees
      ensures Reached(burst, index, old(driver.held), old(driver.frees))
      ensures var good := GoodPrefix(burst);
              && (r == if panicsAt < good then Unwound else if good < |burst| then Err else Ok(|burst|))
              && seen == old(seen) + Views(burst[..if panicsAt < good then panicsAt + 1 else good], old(driver.held))
    {
      index := 0;
      assert burst[..0] == [] && seen + [] == seen;
      while index < |burst|
        invariant Reached(burst, index, old(driver.held), old(driver.frees))
        invariant index <= panicsAt && index <= GoodPrefix(burst)
        invariant seen == old(seen) + Views(burst[..index], old(driver.held))
      {
        var packet := packets[index];
        if Malformed(packet) {
          return index, Err;
        }
        Show(burst, index, old(driver.held), old(driver.frees), old(seen));
        if index == panicsAt {
          return index, Unwound;
        }
        FreeEntry(burst, index, old(driver.held), old(driver.frees));
        index := index + 1;
      }
      r := Ok(|burst|);
    }

    method Fill(burst: seq<RxPacket>)
      requires |burst| <= packets.Length
      modifies packets
      ensures forall i :: 0 <= i < |burst| ==> packets[i] == burst[i]
    {
      for i := 0 to |burst|
        invariant forall k :: 0 <= k < i ==> packets[k] == burst[k]
      {
        packets[i] := burst[i];
      }
    }
  }

  ghost function Views(packets: seq<RxPacket>, held: map<Mbuf, seq<Byte>>): seq<View> {
    if packets == [] then []
    else
      var p := packets[|packets| - 1];
      Views(packets[..|packets| - 1], held)
        + if p.mbuf.Some? && p.mbuf.value in held && p.dataLen <= |held[p.mbuf.value]| then [ViewOf(p, held)] else []
  }

  lemma ViewsSnoc(packets: seq<RxPacket>, k: nat, held: map<Mbuf, seq<Byte>>)
    requires k < |packets| && HandedOver(packets, held) && !Malformed(packets[k])
    ensures Views(packets[..k + 1], held) == Views(packets[..k], held) + [ViewOf(packets[k], held)]
  {
    assert packets[..k + 1][..k] == packets[..k];
  }

  /** When the loop ends at some index, the guard owns exactly the rest. */
  lemma GuardKeeps(
      burst: seq<RxPacket>, now: seq<RxPacket>, index: nat, before: map<Mbuf, seq<Byte>>, held: map<Mbuf, seq<Byte>>)
    requires index <= |burst| == |now| && HandedOver(burst, before) && held == before - Owned(burst[..index])
    requires (forall i :: 0 <= i < index ==> now[i] == EMPTY) && forall i :: index <= i < |burst| ==> now[i] == burst[i]
    ensures HandedOver(now, held)
    ensures held - Owned(now) == before - Owned(burst)
    ensures OwnedCount(burst[..index]) + OwnedCount(now) == OwnedCount(burst)
  {
    Halves(burst, now, index);
    forall i | index <= i < |burst| && burst[i].mbuf.Some? ensures burst[i].mbuf.value in held {
      NotYetFreed(burst, index, i, before);
    }
  }

  lemma Halves(burst: seq<RxPacket>, now: seq<RxPacket>, index: nat)
    requires index <= |burst| == |now|
    requires (forall i :: 0 <= i < index ==> now[i] == EMPTY) && forall i :: index <= i < |burst| ==> now[i] == burst[i]
    ensures Owned(burst[..index]) + Owned(now) == Owned(burst)
    ensures OwnedCount(burst[..index]) + OwnedCount(now) == OwnedCount(burst)
  {
    assert now == now[..index] + burst[index..] && burst == burst[..index] + burst[index..];
    OwnedConcat(now[..index], burst[index..]);
    OwnedConcat(burst[..index], burst[index..]);
    CountConcat(now[..index], burst[index..]);
    CountConcat(burst[..index], burst[index..]);
    EmptyOwnsNone(now[..index]);
  }

  lemma {:induction false} EmptyOwnsNone(packets: seq<RxPacket>)
    requires forall i :: 0 <= i < |packets| ==> packets[i] == EMPTY
    ensures Owned(packets) == {} && OwnedCount(packets) == 0
  {
    if packets != [] {
      EmptyOwnsNone(packets[1..]);
    }
  }
}
