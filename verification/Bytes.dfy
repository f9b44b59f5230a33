/** Machine integers and their byte layouts: little-endian as memcpy leaves a
    number in a key, big-endian ("network order") as the wire carries it. */
module Bytes {
  const TWO31 := 0x8000_0000
  const TWO32 := 0x1_0000_0000
  const TWO53 := 0x20_0000_0000_0000
  const TWO63 := 0x8000_0000_0000_0000
  const TWO64 := 0x1_0000_0000_0000_0000

  type byte = x: int | 0 <= x < 256
  type u32 = x: int | 0 <= x < TWO32
  type u64 = x: int | 0 <= x < TWO64

  /** A protobuf `bytes` field: a message never reaches 2 GiB. */
  type Body = bs: seq<byte> | |bs| < TWO31

  /** The two's complement reading of an unsigned pattern below `modulus`. */
  function Signed(pattern: nat, modulus: nat): int {
    if pattern < modulus / 2 then pattern else pattern - modulus
  }

  /** The one number in the signed range that agrees with the pattern modulo 2^64. */
  lemma SignedWord(pattern: u64)
    ensures -TWO63 <= Signed(pattern, TWO64) < TWO63
    ensures Signed(pattern, TWO64) == pattern || Signed(pattern, TWO64) == pattern - TWO64
  {
  }

  function Pow256(k: nat): (p: nat)
    ensures p > 0
  {
    if k == 0 then 1 else 256 * Pow256(k - 1)
  }

  lemma WordSizes()
    ensures Pow256(4) == TWO32 == 4294967296 && Pow256(8) == TWO64 == 18446744073709551616
  {
  }

  function Pow2(k: nat): (p: nat)
    ensures p > 0
  {
    if k == 0 then 1 else 2 * Pow2(k - 1)
  }

  /** The low `w` bytes of `n`, most significant first. */
  function BigEndian(n: nat, w: nat): (bs: seq<byte>)
    ensures |bs| == w
  {
    if w == 0 then [] else BigEndian(n / 256, w - 1) + [n % 256]
  }

  function FromBigEndian(bs: seq<byte>): nat {
    if |bs| == 0 then 0 else FromBigEndian(bs[..|bs| - 1]) * 256 + bs[|bs| - 1]
  }

  /** The low `w` bytes of `n`, least significant first. */
  function LittleEndian(n: nat, w: nat): (bs: seq<byte>)
    ensures |bs| == w
  {
    if w == 0 then [] else [n % 256] + LittleEndian(n / 256, w - 1)
  }

  function FromLittleEndian(bs: seq<byte>): nat {
    if |bs| == 0 then 0 else bs[0] + 256 * FromLittleEndian(bs[1..])
  }

  lemma {:induction false} BigEndianDecodes(n: nat, w: nat)
    requires n < Pow256(w)
    ensures FromBigEndian(BigEndian(n, w)) == n
  {
    if w > 0 {
      BigEndianDecodes(n / 256, w - 1);
      assert BigEndian(n, w)[..w - 1] == BigEndian(n / 256, w - 1);
    }
  }

  lemma {:induction false} BigEndianEncodes(bs: seq<byte>)
    ensures FromBigEndian(bs) < Pow256(|bs|)
    ensures BigEndian(FromBigEndian(bs), |bs|) == bs
  {
    if |bs| > 0 {
      BigEndianEncodes(bs[..|bs| - 1]);
      var high, low := FromBigEndian(bs[..|bs| - 1]), bs[|bs| - 1];
      assert (high * 256 + low) / 256 == high && (high * 256 + low) % 256 == low;
      assert bs == bs[..|bs| - 1] + [low];
    }
  }

  lemma {:induction false} LittleEndianDecodes(n: nat, w: nat)
    requires n < Pow256(w)
    ensures FromLittleEndian(LittleEndian(n, w)) == n
  {
    if w > 0 {
      LittleEndianDecodes(n / 256, w - 1);
      assert LittleEndian(n, w)[1..] == LittleEndian(n / 256, w - 1);
    }
  }

  lemma {:induction false} LittleEndianEncodes(bs: seq<byte>)
    ensures FromLittleEndian(bs) < Pow256(|bs|)
    ensures LittleEndian(FromLittleEndian(bs), |bs|) == bs
  {
    if |bs| > 0 {
      LittleEndianEncodes(bs[1..]);
      var high, low := FromLittleEndian(bs[1..]), bs[0];
      assert (low + 256 * high) / 256 == high && (low + 256 * high) % 256 == low;
      assert bs == [low] + bs[1..];
    }
  }

  lemma ScaleUp(a: int, b: int, m: nat)
    requires a <= b
    ensures a * m <= b * m
  {
  }

  lemma Quotient(x: int, k: int, d: nat, m: nat)
    requires x == k * m + d && d < m
    ensures x / m == k
  {
    var q, r := x / m, x % m;
    assert x == q * m + r;
    if q < k {
      ScaleUp(q + 1, k, m);
    } else {
      ScaleUp(k, q, m);
      if k < q {
        ScaleUp(k + 1, q, m);
      }
    }
  }

  lemma DivideAgain(n: nat, p: nat)
    requires p > 0
    ensures n / (256 * p) == n / 256 / p
  {
    var q, r := n / 256, n % 256;
    var k, m := q / p, q % p;
    assert q == k * p + m;
    assert n == k * (256 * p) + (256 * m + r) by {
      assert k * (256 * p) == 256 * (k * p);
    }
    Quotient(n, k, 256 * m + r, 256 * p);
  }

  /** Byte i of the little-endian form is digit i in base 256. */
  lemma {:induction false} LittleEndianDigit(n: nat, w: nat, i: nat)
    requires i < w
    ensures LittleEndian(n, w)[i] == n / Pow256(i) % 256
  {
    if i > 0 {
      LittleEndianDigit(n / 256, w - 1, i - 1);
      DivideAgain(n, Pow256(i - 1));
    }
  }

  /** Byte i of the big-endian form is digit w - 1 - i in base 256. */
  lemma {:induction false} BigEndianDigit(n: nat, w: nat, i: nat)
    requires i < w
    ensures BigEndian(n, w)[i] == n / Pow256(w - 1 - i) % 256
  {
    if i < w - 1 {
      BigEndianDigit(n / 256, w - 1, i);
      DivideAgain(n, Pow256(w - 2 - i));
    }
  }
}
