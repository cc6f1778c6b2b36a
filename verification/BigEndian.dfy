/** Fixed-width big-endian integers. */
module BigEndian {
  import opened Bytes

  function Pow256(width: nat): (p: nat)
    ensures p >= 1
  {
    if width == 0 then 1 else 256 * Pow256(width - 1)
  }

  function Encode(n: nat, width: nat): (b: Bytes)
    ensures |b| == width
    decreases width
  {
    if width == 0 then [] else Encode(n / 256, width - 1) + [(n % 256) as Byte]
  }

  function Decode(b: Bytes): nat {
    if b == [] then 0 else 256 * Decode(b[..|b| - 1]) + b[|b| - 1] as nat
  }

  lemma {:induction false} RoundTrip(n: nat, width: nat)
    requires n < Pow256(width)
    ensures Decode(Encode(n, width)) == n
    decreases width
  {
    if width > 0 {
      RoundTrip(n / 256, width - 1);
      assert Encode(n, width)[..width - 1] == Encode(n / 256, width - 1);
    }
  }

  lemma Injective(m: nat, n: nat, width: nat)
    requires m < Pow256(width) && n < Pow256(width)
    requires Encode(m, width) == Encode(n, width)
    ensures m == n
  {
    RoundTrip(m, width);
    RoundTrip(n, width);
  }

  lemma Widths()
    ensures Pow256(4) == U32_MAX + 1
    ensures Pow256(8) == U64_MAX + 1
    ensures Pow256(16) == 2 * (I128_MAX + 1)
  {
    assert Pow256(8) == 256 * (256 * (256 * (256 * Pow256(4))));
    assert Pow256(12) == 256 * (256 * (256 * (256 * Pow256(8))));
    assert Pow256(16) == 256 * (256 * (256 * (256 * Pow256(12))));
  }

  /** The first half of an 8-byte number is the 4-byte encoding of its high half. */
  lemma HighHalf(n: nat)
    ensures Encode(n, 8)[..4] == Encode(n / 256 / 256 / 256 / 256, 4)
  {
    var a, b, c, d := n / 256, n / 256 / 256, n / 256 / 256 / 256, n / 256 / 256 / 256 / 256;
    assert Encode(n, 8)[..7] == Encode(a, 7);
    assert Encode(a, 7)[..6] == Encode(b, 6);
    assert Encode(b, 6)[..5] == Encode(c, 5);
    assert Encode(c, 5)[..4] == Encode(d, 4);
    assert Encode(n, 8)[..4] == Encode(n, 8)[..7][..6][..5][..4];
  }
}
