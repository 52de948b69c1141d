/** Octets, and the fixed-width encodings that the program sends over its sockets. */
module Bytes {

  type byte = x: int | 0 <= x < 256

  /** sizeof(uint32_t). */
  const WORD: nat := 4

  const TWO_32: int := 0x1_0000_0000

  /** The len low-order octets of n, the lowest first. */
  function LittleEndian(n: nat, len: nat): (r: seq<byte>)
    ensures |r| == len
  {
    if len == 0 then [] else [n % 256] + LittleEndian(n / 256, len - 1)
  }

  function FromLittleEndian(s: seq<byte>): (r: nat) {
    if s == [] then 0 else s[0] + 256 * FromLittleEndian(s[1..])
  }

  lemma QuotientBelow(n: nat, len: nat)
    requires n < Pow256(len) && len > 0
    ensures n / 256 < Pow256(len - 1)
  {
    assert Pow256(len) == 256 * Pow256(len - 1);
  }

  lemma {:induction false} LittleEndianRoundTrip(n: nat, len: nat)
    requires n < Pow256(len)
    ensures FromLittleEndian(LittleEndian(n, len)) == n
  {
    if len == 0 {
    } else {
      QuotientBelow(n, len);
      LittleEndianRoundTrip(n / 256, len - 1);
      assert LittleEndian(n, len)[1..] == LittleEndian(n / 256, len - 1);
    }
  }

  /** The four octets that a little-endian machine stores for a uint32_t. */
  function Le32(n: nat): (r: seq<byte>)
    ensures |r| == 4
  {
    LittleEndian(n, WORD)
  }

  function FromLe32(s: seq<byte>): nat { FromLittleEndian(s) }

  lemma Pow256Word(k: nat)
    ensures Pow256(k + 4) == TWO_32 * Pow256(k)
  {
    assert Pow256(k + 4) == 256 * Pow256(k + 3);
    assert Pow256(k + 3) == 256 * Pow256(k + 2);
    assert Pow256(k + 2) == 256 * Pow256(k + 1);
  }

  lemma Le32RoundTrip(n: nat)
    requires n < TWO_32
    ensures FromLe32(Le32(n)) == n
  {
    Pow256Word(0);
    LittleEndianRoundTrip(n, WORD);
  }

  function Pow256(k: nat): (r: nat)
    ensures r > 0
  {
    if k == 0 then 1 else 256 * Pow256(k - 1)
  }

  /** The len-octet big-endian string of n, high-order octets beyond len dropped. */
  function BigEndian(n: nat, len: nat): (r: seq<byte>)
    ensures |r| == len
  {
    if len == 0 then [] else BigEndian(n / 256, len - 1) + [n % 256]
  }

  function FromBigEndian(s: seq<byte>): (r: nat)
  {
    if s == [] then 0 else 256 * FromBigEndian(s[..|s| - 1]) + s[|s| - 1]
  }

  lemma FromBigEndianSnoc(s: seq<byte>, b: byte)
    ensures FromBigEndian(s + [b]) == 256 * FromBigEndian(s) + b
  {
    assert (s + [b])[..|s|] == s;
  }

  lemma {:induction false} BigEndianRoundTrip(n: nat, len: nat)
    requires n < Pow256(len)
    ensures FromBigEndian(BigEndian(n, len)) == n
  {
    if len == 0 {
    } else {
      QuotientBelow(n, len);
      BigEndianRoundTrip(n / 256, len - 1);
      FromBigEndianSnoc(BigEndian(n / 256, len - 1), n % 256);
    }
  }

  lemma {:induction false} FromBigEndianBound(s: seq<byte>)
    ensures FromBigEndian(s) < Pow256(|s|)
  {
    if s == [] {
    } else {
      FromBigEndianBound(s[..|s| - 1]);
    }
  }
}
