/** Bitwise `and`, powers of two and fixed-width wrap-around, on mathematical integers. */
module Bits {

  const U32_SPAN: nat := 0x1_0000_0000

  /** `u32::is_power_of_two` */
  predicate IsPowerOfTwo(n: nat) {
    n == 1 || (n > 1 && n % 2 == 0 && IsPowerOfTwo(n / 2))
  }

  function And(a: nat, b: nat): nat {
    if a == 0 || b == 0 then 0
    else (if a % 2 == 1 && b % 2 == 1 then 1 else 0) + 2 * And(a / 2, b / 2)
  }

  /** Masking with a power of two less one is the remainder. */
  lemma {:induction false} AndMask(x: nat, n: nat)
    requires IsPowerOfTwo(n)
    ensures And(x, n - 1) == x % n
    decreases n
  {
    if n > 1 {
      var h := n / 2;
      assert n == 2 * h && (n - 1) / 2 == h - 1 && (n - 1) % 2 == 1;
      AndMask(x / 2, h);
      assert x % n == 2 * ((x / 2) % h) + x % 2 by { HalfMod(x, h); }
      if x > 0 && n - 1 > 0 {
        assert And(x, n - 1) == (if x % 2 == 1 then 1 else 0) + 2 * And(x / 2, h - 1);
      }
    }
  }

  lemma HalfMod(x: nat, h: nat)
    requires h > 0
    ensures x % (2 * h) == 2 * ((x / 2) % h) + x % 2
  {
    var q, r := (x / 2) / h, (x / 2) % h;
    assert x / 2 == q * h + r;
    assert x == (2 * h) * q + (2 * r + x % 2) by {
      assert x == 2 * (x / 2) + x % 2;
      assert 2 * (q * h) == (2 * h) * q;
    }
    ModUnique(x, 2 * h, q, 2 * r + x % 2);
  }

  lemma MulBounds(n: nat, e: int)
    ensures e >= 1 ==> n * e >= n
    ensures e <= 0 ==> n * e <= 0
    ensures e <= -1 ==> n * e + n <= 0
  {}

  lemma NextMultiple(a: nat, b: nat, n: nat)
    requires a < b
    ensures a * n + n <= b * n
  {
    MulBounds(n, b - a);
    assert b * n - a * n == n * (b - a);
  }

  lemma ModUnique(x: nat, n: nat, q: nat, r: nat)
    requires r < n && x == n * q + r
    ensures x % n == r && x / n == q
  {
    var e := x / n - q;
    assert n * (x / n) + x % n == n * q + r;
    assert n * e == r - x % n by { assert n * (x / n) - n * q == n * e; }
    MulBounds(n, e);
  }

  /** Powers of two up to 2^32 divide 2^32, so masking commutes with u32 wrap-around. */
  lemma {:induction false} PowerDivides(n: nat, m: nat)
    requires IsPowerOfTwo(n) && IsPowerOfTwo(m) && n <= m
    ensures m % n == 0
    decreases n
  {
    if n > 1 {
      PowerDivides(n / 2, m / 2);
      HalfMod(m, n / 2);
    }
  }

  lemma Regroup(n: nat, k: nat, q: nat, p: nat, r: nat)
    ensures (n * k) * q + (n * p + r) == n * (k * q + p) + r
  {
    assert (n * k) * q == n * (k * q);
    assert n * (k * q + p) == n * (k * q) + n * p;
  }

  lemma WrapMod(x: nat, n: nat, m: nat)
    requires 0 < n && 0 < m && m % n == 0
    ensures (x % m) % n == x % n
  {
    var k, q, p, r := m / n, x / m, (x % m) / n, (x % m) % n;
    assert m == n * k && x == m * q + (n * p + r);
    Regroup(n, k, q, p, r);
    ModUnique(x, n, k * q + p, r);
  }

  lemma SpanIsPowerOfTwo()
    ensures IsPowerOfTwo(U32_SPAN)
  {
    PowersUpTo20();
    assert IsPowerOfTwo(0x100000) && IsPowerOfTwo(0x200000) && IsPowerOfTwo(0x400000) && IsPowerOfTwo(0x800000);
    assert IsPowerOfTwo(0x1000000) && IsPowerOfTwo(0x2000000) && IsPowerOfTwo(0x4000000) && IsPowerOfTwo(0x8000000);
    assert IsPowerOfTwo(0x10000000) && IsPowerOfTwo(0x20000000) && IsPowerOfTwo(0x40000000) && IsPowerOfTwo(0x80000000);
  }

  lemma PowersUpTo20()
    ensures IsPowerOfTwo(0x100000)
  {
    assert IsPowerOfTwo(1) && IsPowerOfTwo(2) && IsPowerOfTwo(4) && IsPowerOfTwo(8);
    assert IsPowerOfTwo(0x10) && IsPowerOfTwo(0x20) && IsPowerOfTwo(0x40) && IsPowerOfTwo(0x80);
    assert IsPowerOfTwo(0x100) && IsPowerOfTwo(0x200) && IsPowerOfTwo(0x400) && IsPowerOfTwo(0x800);
    assert IsPowerOfTwo(0x1000) && IsPowerOfTwo(0x2000) && IsPowerOfTwo(0x4000) && IsPowerOfTwo(0x8000);
    assert IsPowerOfTwo(0x10000) && IsPowerOfTwo(0x20000) && IsPowerOfTwo(0x40000) && IsPowerOfTwo(0x80000);
  }

  /** `u32::wrapping_add`, `u32::wrapping_sub` */
  function WrapAdd(a: nat, b: nat): nat {
    (a + b) % U32_SPAN
  }

  function WrapSub(a: nat, b: nat): nat {
    (a - b) % U32_SPAN
  }

  /** Two running counters, at most one span apart, seen through their u32 images. */
  lemma WrapDistance(a: nat, b: nat)
    requires b <= a < b + U32_SPAN
    ensures WrapSub(a % U32_SPAN, b % U32_SPAN) == a - b
  {}

  lemma WrapAddCounter(a: nat, b: nat)
    ensures WrapAdd(a % U32_SPAN, b) == (a + b) % U32_SPAN
  {}

  /** The slot a running counter selects in a ring of n slots: its remainder, by repeated
      subtraction. */
  function Fold(counter: nat, n: nat): (slot: nat)
    requires n > 0
    ensures slot < n
  {
    if counter < n then counter else Fold(counter - n, n)
  }

  lemma {:induction false} FoldIsRemainder(counter: nat, n: nat)
    requires n > 0
    ensures Fold(counter, n) == counter % n
    decreases counter
  {
    if counter >= n {
      FoldIsRemainder(counter - n, n);
      ModUnique(counter, n, (counter - n) / n + 1, (counter - n) % n);
    }
  }

  /** The source's masked index of a u32 counter. */
  lemma MaskedSlot(counter: nat, capacity: nat)
    requires IsPowerOfTwo(capacity) && capacity <= U32_SPAN
    ensures And(counter % U32_SPAN, capacity - 1) == Fold(counter, capacity)
  {
    SpanIsPowerOfTwo();
    PowerDivides(capacity, U32_SPAN);
    WrapMod(counter, capacity, U32_SPAN);
    AndMask(counter % U32_SPAN, capacity);
    FoldIsRemainder(counter, capacity);
  }

  /** The masked index k places after a u32 counter. */
  lemma MaskedSlotAfter(counter: nat, k: nat, capacity: nat)
    requires IsPowerOfTwo(capacity) && capacity <= U32_SPAN
    ensures And(WrapAdd(counter % U32_SPAN, k), capacity - 1) == Fold(counter + k, capacity)
  {
    MaskedSlot(counter + k, capacity);
    assert WrapAdd(counter % U32_SPAN, k) == (counter + k) % U32_SPAN by { WrapAddCounter(counter, k); }
  }

  /** A counter whose u32 image is zero is at the start of the ring. */
  lemma StartOfRing(counter: nat, k: nat, capacity: nat)
    requires IsPowerOfTwo(capacity) && k < capacity <= U32_SPAN && counter % U32_SPAN == 0
    ensures Fold(counter + k, capacity) == k
  {
    MaskedSlotAfter(counter, k, capacity);
    assert WrapAdd(0, k) == k;
    AndMask(k, capacity);
    ModUnique(k, capacity, 0, k);
  }

  lemma RemaindersDiffer(a: nat, b: nat, n: nat)
    requires a < b < a + n
    ensures a % n != b % n
  {
    var e := b / n - a / n;
    assert b - a == n * e + (b % n - a % n) by {
      assert a == n * (a / n) + a % n && b == n * (b / n) + b % n;
      assert n * (b / n) - n * (a / n) == n * e;
    }
    MulBounds(n, e);
  }

  /** Counters less than one capacity apart select different slots. */
  lemma SlotsDiffer(a: nat, b: nat, capacity: nat)
    requires a < b < a + capacity
    ensures Fold(a, capacity) != Fold(b, capacity)
  {
    FoldIsRemainder(a, capacity);
    FoldIsRemainder(b, capacity);
    RemaindersDiffer(a, b, capacity);
  }
}
