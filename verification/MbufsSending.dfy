/** Sending copies of one frame: every buffer taken from the pool is accepted by the device or given
    back, and the bounded loop sends exactly what was asked. */
module MbufsSending {
  import opened Common
  import opened Mbufs

  datatype Sent = Accepted(count: nat) | Refused | NoProgress

  /** How the pool and the device behave in one burst. */
  datatype TxEvents = TxEvents(names: seq<Mbuf>, allocates: bool, appendFailsAt: nat, accepts: nat)

  /** What is promised of the buffers the pool picks. */
  ghost predicate Offers(events: TxEvents, held: map<Mbuf, seq<Byte>>) {
    |events.names| >= 256 && Distinct(events.names) && forall i :: 0 <= i < |events.names| ==> events.names[i] !in held
  }

  function Copies(frame: seq<Byte>, n: nat): (s: seq<seq<Byte>>)
    ensures |s| == n && forall i :: 0 <= i < n ==> s[i] == frame
  {
    if n == 0 then [] else [frame] + Copies(frame, n - 1)
  }

  lemma CopiesAdd(before: seq<seq<Byte>>, frame: seq<Byte>, m: nat, n: nat)
    ensures (before + Copies(frame, m)) + Copies(frame, n) == before + Copies(frame, m + n)
  {}

  lemma NoCopies(before: seq<seq<Byte>>, frame: seq<Byte>)
    ensures before + Copies(frame, 0) == before
  {}

  lemma {:induction false} ContentsAreCopies(held: map<Mbuf, seq<Byte>>, mbufs: seq<Mbuf>, frame: seq<Byte>)
    requires forall i :: 0 <= i < |mbufs| ==> mbufs[i] in held && held[mbufs[i]] == frame
    ensures Contents(held, mbufs) == Copies(frame, |mbufs|)
  {
    if mbufs != [] {
      ContentsAreCopies(held, mbufs[1..], frame);
    }
  }

  class TxQueue {
    const driver: Driver

    constructor (d: Driver)
      ensures driver == d
    {
      driver := d;
    }

    /** Frees the buffers from position k on; those before it are no longer ours. */
    method FreeFrom(mbufs: seq<Mbuf>, k: nat, ghost rest: map<Mbuf, seq<Byte>>)
      requires k <= |mbufs| && Distinct(mbufs) && HoldsBeside(driver.held, mbufs[k..], rest)
      modifies driver`held, driver`frees
      ensures driver.held == rest && driver.frees == old(driver.frees) + |mbufs| - k
    {
      for index := k to |mbufs|
        invariant HoldsBeside(driver.held, mbufs[index..], rest)
        invariant driver.frees == old(driver.frees) + index - k
      {
        FreeOne(mbufs, index, rest);
      }
      NothingBeside(driver.held, mbufs, rest);
    }

    method FreeOne(mbufs: seq<Mbuf>, k: nat, ghost rest: map<Mbuf, seq<Byte>>)
      requires k < |mbufs| && Distinct(mbufs) && HoldsBeside(driver.held, mbufs[k..], rest)
      modifies driver`held, driver`frees
      ensures HoldsBeside(driver.held, mbufs[k + 1..], rest) && driver.frees == old(driver.frees) + 1
    {
      FreeStep(driver.held, mbufs, k, rest);
      driver.Free(mbufs[k]);
    }

    /** Copies the frame into every buffer, unless one has no room. */
    method AppendAll(
        mbufs: seq<Mbuf>, frame: seq<Byte>, failsAt: nat, ghost rest: map<Mbuf, seq<Byte>>)
      returns (ok: bool)
      requires Distinct(mbufs) && HoldsBeside(driver.held, mbufs, rest)
      requires forall i :: 0 <= i < |mbufs| ==> driver.held[mbufs[i]] == []
      modifies driver`held
      ensures HoldsBeside(driver.held, mbufs, rest) && ok == (|mbufs| <= failsAt)
      ensures ok ==> forall i :: 0 <= i < |mbufs| ==> driver.held[mbufs[i]] == frame
    {
      for index := 0 to |mbufs|
        invariant HoldsBeside(driver.held, mbufs, rest) && index <= failsAt
        invariant forall i :: 0 <= i < index ==> driver.held[mbufs[i]] == frame
        invariant forall i :: index <= i < |mbufs| ==> driver.held[mbufs[i]] == []
      {
        if index == failsAt {
          return false;
        }
        assert [] + frame == frame;
        driver.Append(mbufs[index], frame);
      }
      return true;
    }

    /** `nt_dpdk_tx_template_burst` */
    method SendBurst(frame: seq<Byte>, count: nat, events: TxEvents) returns (r: Sent)
      requires Offers(events, driver.held)
      modifies driver
      ensures driver.held == old(driver.held)
      ensures driver.allocations - old(driver.allocations)
          == driver.frees - old(driver.frees) + |driver.sent| - |old(driver.sent)|
      ensures driver.sent == old(driver.sent) + Copies(frame, if r.Accepted? then r.count else 0)
      ensures r == if 0 < count <= 256 && frame != [] && events.allocates && count <= events.appendFailsAt
                   then Accepted(if events.accepts < count then events.accepts else count) else Refused
    {
      NoCopies(driver.sent, frame);
      if count == 0 || count > 256 || frame == [] || !events.allocates {
        return Refused;
      }
      var mbufs := events.names[..count];
      ghost var rest := driver.held;
      driver.AllocBulk(mbufs);
      var appended := AppendAll(mbufs, frame, events.appendFailsAt, rest);
      if !appended {
        assert mbufs[0..] == mbufs;
        FreeFrom(mbufs, 0, rest);
        return Refused;
      }
      var sent := if events.accepts < count then events.accepts else count;
      Hand(mbufs, sent, frame, rest);
      return Accepted(sent);
    }

    /** Gives the device the first n buffers and the pool the others. */
    method Hand(mbufs: seq<Mbuf>, n: nat, ghost frame: seq<Byte>, ghost rest: map<Mbuf, seq<Byte>>)
      requires n <= |mbufs| && Distinct(mbufs) && HoldsBeside(driver.held, mbufs, rest)
      requires forall i :: 0 <= i < |mbufs| ==> driver.held[mbufs[i]] == frame
      modifies driver`held, driver`sent, driver`frees
      ensures driver.held == rest && driver.sent == old(driver.sent) + Copies(frame, n)
      ensures driver.frees == old(driver.frees) + |mbufs| - n
    {
      TakenAway(driver.held, mbufs, n, rest);
      ContentsAreCopies(driver.held, mbufs[..n], frame);
      driver.TxBurst(mbufs, n);
      FreeFrom(mbufs, n, rest);
    }

    /** `send_template_burst` */
    method SendTemplateBurst(frame: seq<Byte>, count: nat, events: TxEvents) returns (r: Sent)
      requires Offers(events, driver.held)
      modifies driver
      ensures driver.held == old(driver.held)
      ensures driver.allocations - old(driver.allocations)
          == driver.frees - old(driver.frees) + |driver.sent| - |old(driver.sent)|
      ensures driver.sent == old(driver.sent) + Copies(frame, if r.Accepted? then r.count else 0)
      ensures r.Accepted? ==> r.count <= count <= 256 && 0 < |frame| <= 0xFFFF
      ensures !r.Accepted? ==> r == Refused
    {
      NoCopies(driver.sent, frame);
      if |frame| > 0xFFFF || frame == [] || count == 0 || count > 256 {
        return Refused;
      }
      r := SendBurst(frame, count, events);
    }

    /** The bounded loop of `execute_native_tx`: on success exactly the requested frames were sent; it
        always ends, because every burst sends some or ends it. */
    method Transmit(frame: seq<Byte>, packets: nat, events: nat -> TxEvents) returns (r: Sent)
      requires forall i :: Offers(events(i), driver.held)
      modifies driver
      ensures driver.held == old(driver.held)
      ensures driver.allocations - old(driver.allocations)
          == driver.frees - old(driver.frees) + |driver.sent| - |old(driver.sent)|
      ensures r.Accepted? ==> r.count == packets && driver.sent == old(driver.sent) + Copies(frame, packets)
      ensures !r.Accepted? ==> exists n :: 0 <= n < packets && driver.sent == old(driver.sent) + Copies(frame, n)
    {
      var transmitted, calls := 0, 0;
      NoCopies(driver.sent, frame);
      while transmitted < packets
        invariant transmitted <= packets && driver.held == old(driver.held)
        invariant driver.sent == old(driver.sent) + Copies(frame, transmitted)
        invariant driver.allocations - old(driver.allocations)
            == driver.frees - old(driver.frees) + |driver.sent| - |old(driver.sent)|
        decreases packets - transmitted
      {
        var remaining := packets - transmitted;
        var burst := if remaining < 64 then remaining else 64;
        var accepted := SendTemplateBurst(frame, burst, events(calls));
        if !accepted.Accepted? {
          NoCopies(old(driver.sent) + Copies(frame, transmitted), frame);
          return Refused;
        }
        CopiesAdd(old(driver.sent), frame, transmitted, accepted.count);
        if accepted.count == 0 {
          return NoProgress;
        }
        transmitted, calls := transmitted + accepted.count, calls + 1;
      }
      return Accepted(transmitted);
    }
  }

  /** The mbufs are held, and beside them exactly the rest with its contents. */
  ghost predicate HoldsBeside(held: map<Mbuf, seq<Byte>>, mbufs: seq<Mbuf>, rest: map<Mbuf, seq<Byte>>) {
    && (forall i :: 0 <= i < |mbufs| ==> mbufs[i] in held && mbufs[i] !in rest)
    && (forall m :: m in rest ==> m in held && held[m] == rest[m])
    && (forall m :: m in held ==> m in rest || m in mbufs)
  }

  lemma NothingBeside(held: map<Mbuf, seq<Byte>>, mbufs: seq<Mbuf>, rest: map<Mbuf, seq<Byte>>)
    requires HoldsBeside(held, mbufs[|mbufs|..], rest)
    ensures held == rest
  {
    assert mbufs[|mbufs|..] == [];
  }

  lemma FreeStep(held: map<Mbuf, seq<Byte>>, mbufs: seq<Mbuf>, k: nat, rest: map<Mbuf, seq<Byte>>)
    requires k < |mbufs| && Distinct(mbufs) && HoldsBeside(held, mbufs[k..], rest)
    ensures mbufs[k] in held && HoldsBeside(held - {mbufs[k]}, mbufs[k + 1..], rest)
  {
    assert mbufs[k..][0] == mbufs[k];
    assert forall i :: k < i < |mbufs| ==> mbufs[i] == mbufs[k..][i - k];
    assert mbufs[k..] == [mbufs[k]] + mbufs[k + 1..];
  }

  lemma NotBefore(mbufs: seq<Mbuf>, n: nat, i: nat)
    requires n <= i < |mbufs| && Distinct(mbufs)
    ensures mbufs[i] !in Set(mbufs[..n])
  {}

  lemma TakenAway(held: map<Mbuf, seq<Byte>>, mbufs: seq<Mbuf>, n: nat, rest: map<Mbuf, seq<Byte>>)
    requires n <= |mbufs| && Distinct(mbufs) && HoldsBeside(held, mbufs, rest)
    ensures HoldsBeside(held - Set(mbufs[..n]), mbufs[n..], rest)
  {
    var left, later := held - Set(mbufs[..n]), mbufs[n..];
    forall i | 0 <= i < |later| ensures later[i] in left && later[i] !in rest {
      NotBefore(mbufs, n, n + i);
      assert later[i] == mbufs[n + i];
    }
    forall m | m in rest ensures m in left && left[m] == rest[m] {
      assert m !in mbufs[..n];
    }
    forall m | m in left ensures m in rest || m in later {
      assert mbufs == mbufs[..n] + later;
    }
  }
}
