/** The UUIDv7 layout of section 5.7 of RFC 9562: 48 bits of milliseconds, the version, 12
    random bits, the variant, and 62 random bits, most significant first. Integers are
    unbounded, as they are in the source. */
module Uuid7 {
  import opened Basics

  /** `x << k` */
  function Shift(x: nat, k: nat): nat {
    x * Pow2(k)
  }

  /** `x | y`, bit by bit. */
  function Or(x: nat, y: nat): nat {
    if x == 0 && y == 0 then 0
    else 2 * Or(x / 2, y / 2) + (if x % 2 == 1 || y % 2 == 1 then 1 else 0)
  }

  lemma {:induction false} OrZero(x: nat)
    ensures Or(x, 0) == x
  {
    if x > 0 {
      OrZero(x / 2);
    }
  }

  lemma ShiftDoubles(x: nat, k: nat)
    requires k > 0
    ensures Shift(x, k) == 2 * Shift(x, k - 1)
  {
    assert x * (2 * Pow2(k - 1)) == 2 * (x * Pow2(k - 1));
  }

  lemma OrOfEven(x: nat, y: nat)
    ensures Or(2 * x, y) == 2 * Or(x, y / 2) + y % 2
  {
  }

  /** Setting bits below a multiple of a power of two adds them. */
  lemma {:induction false} OrAddsLowBits(x: nat, k: nat, y: nat)
    requires y < Pow2(k)
    ensures Or(Shift(x, k), y) == Shift(x, k) + y
    decreases k
  {
    if k == 0 {
      OrZero(x);
    } else {
      OrAddsLowBits(x, k - 1, y / 2);
      ShiftDoubles(x, k);
      OrOfEven(Shift(x, k - 1), y);
    }
  }

  lemma {:induction false} Pow2Sum(a: nat, b: nat)
    ensures Pow2(a + b) == Pow2(a) * Pow2(b)
  {
    if a > 0 {
      Pow2Sum(a - 1, b);
    }
  }

  const P62: nat := 0x4000_0000_0000_0000
  const P64: nat := 0x1_0000_0000_0000_0000
  const P76: nat := 0x1000_0000_0000_0000_0000
  const P80: nat := 0x1_0000_0000_0000_0000_0000

  lemma Widths()
    ensures Pow2(62) == P62 && Pow2(64) == P64 && Pow2(76) == P76 && Pow2(80) == P80
  {
    assert Pow2(12) == 0x1000 && Pow2(14) == 0x4000 && Pow2(16) == 0x1_0000;
    Pow2Sum(16, 16);
    Pow2Sum(32, 16);
    Pow2Sum(48, 14);
    Pow2Sum(48, 16);
    Pow2Sum(64, 12);
    Pow2Sum(64, 16);
  }

  /** The value of the fields at their places. */
  function Pack(timestamp: nat, randA: nat, randB: nat): nat {
    timestamp * P80 + 7 * P76 + randA * P64 + 2 * P62 + randB
  }

  predicate InField(timestamp: nat, randA: nat, randB: nat) {
    timestamp < 0x1_0000_0000_0000 && randA < 0x1000 && randB < P62
  }

  /** The packing, one `|=` at a time, from a clock reading of any size. */
  method Assemble(millis: nat, randA: nat, randB: nat) returns (value: nat)
    requires InField(0, randA, randB)
    ensures value == Pack(millis % 0x1_0000_0000_0000, randA, randB)
  {
    Widths();
    var timestamp := millis % 0x1_0000_0000_0000;
    value := Shift(timestamp, 80);
    OrAddsLowBits(timestamp, 80, Shift(0x7, 76));
    value := Or(value, Shift(0x7, 76));
    ghost var high := timestamp * 16 + 7;
    assert value == Shift(high, 76);
    OrAddsLowBits(high, 76, Shift(randA, 64));
    value := Or(value, Shift(randA, 64));
    high := high * 0x1000 + randA;
    assert value == Shift(high, 64);
    OrAddsLowBits(high, 64, Shift(0x2, 62));
    value := Or(value, Shift(0x2, 62));
    high := high * 4 + 2;
    assert value == Shift(high, 62);
    OrAddsLowBits(high, 62, randB);
    value := Or(value, randB);
  }

  /** Every field can be read back: the packing loses nothing and marks version and variant. */
  lemma PackingIsInvertible(timestamp: nat, randA: nat, randB: nat)
    requires InField(timestamp, randA, randB)
    ensures var id := Pack(timestamp, randA, randB);
            && id / P80 == timestamp
            && id / P76 % 16 == 7
            && id / P64 % 0x1000 == randA
            && id / P62 % 4 == 2
            && id % P62 == randB
  {
    var high := timestamp * 16 + 7;
    var higher := high * 0x1000 + randA;
    PackedAs(timestamp, randA, randB);
    Divide80(timestamp, 7 * P76 + randA * P64 + 2 * P62 + randB);
    Divide76(high, randA * P64 + 2 * P62 + randB);
    Divide64(higher, 2 * P62 + randB);
    Divide62(higher * 4 + 2, randB);
    LowBits(timestamp, 7, 0, 0);
    LowBits(high, 0, randA, 0);
    LowBits(higher, 0, 0, 2);
  }

  /** The same number, read from each field upwards. */
  lemma PackedAs(timestamp: nat, randA: nat, randB: nat)
    ensures var high := timestamp * 16 + 7;
            var higher := high * 0x1000 + randA;
            var id := Pack(timestamp, randA, randB);
            && id == timestamp * P80 + (7 * P76 + randA * P64 + 2 * P62 + randB)
            && id == high * P76 + (randA * P64 + 2 * P62 + randB)
            && id == higher * P64 + (2 * P62 + randB)
            && id == (higher * 4 + 2) * P62 + randB
  {
  }

  lemma LowBits(q: nat, version: nat, random: nat, variant: nat)
    requires version < 16 && random < 0x1000 && variant < 4
    ensures (q * 16 + version) % 16 == version
    ensures (q * 0x1000 + random) % 0x1000 == random
    ensures (q * 4 + variant) % 4 == variant
  {
  }

  lemma Divide80(q: nat, r: nat)
    requires r < P80
    ensures (q * P80 + r) / P80 == q
  {
  }

  lemma Divide76(q: nat, r: nat)
    requires r < P76
    ensures (q * P76 + r) / P76 == q
  {
  }

  lemma Divide64(q: nat, r: nat)
    requires r < P64
    ensures (q * P64 + r) / P64 == q
  {
  }

  lemma Divide62(q: nat, r: nat)
    requires r < P62
    ensures (q * P62 + r) / P62 == q && (q * P62 + r) % P62 == r
  {
  }

  /** Ids are ordered by millisecond, whatever the random bits; within one millisecond the
      random bits decide, the first field before the second. */
  lemma OrderFollowsTime(t: nat, a: nat, b: nat, u: nat, c: nat, d: nat)
    requires InField(t, a, b) && InField(u, c, d)
    ensures Pack(t, a, b) < Pack(u, c, d) <==>
            t < u || (t == u && (a < c || (a == c && b < d)))
  {
    if t < u {
      assert (t + 1) * P80 <= u * P80;
    } else if u < t {
      assert (u + 1) * P80 <= t * P80;
    }
  }
}
