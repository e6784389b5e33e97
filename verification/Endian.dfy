/** Integers as bytes: host order (little-endian) where the source copies memory, network
    order where it calls htonl. */
module Endian {
  import opened Hashes

  const WORD32: nat := 0x1_0000_0000
  const WORD64: nat := 0x1_0000_0000_0000_0000

  type uint32 = x: nat | x < WORD32

  function Limit(width: nat): (p: nat)
    ensures p >= 1
  {
    if width == 0 then 1 else 256 * Limit(width - 1)
  }

  function LittleEndian(x: nat, width: nat): (s: seq<byte>)
    ensures |s| == width
  {
    if width == 0 then [] else [x % 256] + LittleEndian(x / 256, width - 1)
  }

  function FromLittleEndian(s: seq<byte>): nat {
    if s == [] then 0 else s[0] + 256 * FromLittleEndian(s[1..])
  }

  lemma {:induction false} LittleEndianRoundTrip(x: nat, width: nat)
    requires x < Limit(width)
    ensures FromLittleEndian(LittleEndian(x, width)) == x
  {
    if width > 0 {
      assert x / 256 < Limit(width - 1);
      LittleEndianRoundTrip(x / 256, width - 1);
      assert LittleEndian(x, width)[1..] == LittleEndian(x / 256, width - 1);
    }
  }

  lemma Distribute(n: int, a: int, b: int)
    ensures n * (a + b) == n * a + n * b
  {
  }

  lemma AtLeastOnce(n: nat, d: int)
    requires d >= 1
    ensures n * d >= n
  {
  }

  lemma QuotientUnique(x: nat, d: nat, q: nat, r: nat)
    requires r < d && x == d * q + r
    ensures x / d == q
  {
    var p := x / d;
    assert x == d * p + x % d;
    if p > q {
      Distribute(d, p - q, q);
      AtLeastOnce(d, p - q);
    } else if p < q {
      Distribute(d, q - p, p);
      AtLeastOnce(d, q - p);
    }
  }

  lemma DivByteAndMore(x: nat, p: nat)
    requires p >= 1
    ensures x / (256 * p) == x / 256 / p
  {
    var y := x / 256;
    var q, r := y / p, y % p;
    assert y == p * q + r;
    assert 256 * (p * q) == (256 * p) * q;
    QuotientUnique(x, 256 * p, q, 256 * r + x % 256);
  }

  /** Byte i of the little-endian form is digit i of the number in base 256. */
  lemma {:induction false} LittleEndianDigit(x: nat, width: nat, i: nat)
    requires i < width
    ensures LittleEndian(x, width)[i] == x / Limit(i) % 256
  {
    if i > 0 {
      LittleEndianDigit(x / 256, width - 1, i - 1);
      DivByteAndMore(x, Limit(i - 1));
    }
  }

  lemma LittleEndian64RoundTrip(x: nat)
    requires x < WORD64
    ensures FromLittleEndian(LittleEndian(x, 8)) == x
  {
    assert Limit(8) == WORD64 by {
      assert Limit(4) == WORD32;
      assert Limit(8) == 256 * (256 * (256 * (256 * Limit(4))));
    }
    LittleEndianRoundTrip(x, 8);
  }

  /** A conversion to 32 bits. */
  function Truncated(x: nat): uint32 {
    x % WORD32
  }

  lemma TruncatedIfSmall(x: nat)
    ensures Truncated(x) == x <==> x < WORD32
  {
  }

  function BigEndian32(x: uint32): (s: seq<byte>)
    ensures |s| == 4
  {
    [x / 0x100_0000, x / 0x1_0000 % 256, x / 0x100 % 256, x % 256]
  }

  function FromBigEndian32(s: seq<byte>): uint32
    requires |s| == 4
  {
    var a: nat, b: nat, c: nat, d: nat := s[0], s[1], s[2], s[3];
    a * 0x100_0000 + b * 0x1_0000 + c * 0x100 + d
  }

  /** Network order: the highest byte comes first. */
  lemma BigEndian32Digits(x: uint32)
    ensures var s := BigEndian32(x);
            var a: nat, b: nat, c: nat, d: nat := s[0], s[1], s[2], s[3];
            a * 0x100_0000 + b * 0x1_0000 + c * 0x100 + d == x
  {
    BigEndian32RoundTrip(x);
  }

  lemma BigEndian32RoundTrip(x: uint32)
    ensures FromBigEndian32(BigEndian32(x)) == x
  {
    assert x == x / 256 * 256 + x % 256;
    assert x / 256 == x / 0x1_0000 * 256 + x / 256 % 256;
    assert x / 0x1_0000 == x / 0x100_0000 * 256 + x / 0x1_0000 % 256;
  }
}
