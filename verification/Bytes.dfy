/** Bytes and big-endian numbers. */
module Bytes {

  type Byte = n: nat | n < 256

  /** `n` as `count` bytes, most significant first; higher bytes of `n` are dropped. */
  function BigEndian(n: nat, count: nat): (r: seq<Byte>)
    ensures |r| == count
  {
    if count == 0 then [] else BigEndian(n / 256, count - 1) + [n % 256]
  }

  /** The number that bytes denote, most significant first. */
  function FromBigEndian(b: seq<Byte>): nat {
    if b == [] then 0 else 256 * FromBigEndian(b[..|b| - 1]) + b[|b| - 1]
  }

  /** The last byte is the number modulo 256, and the ones before it are those of its quotient. */
  lemma BigEndianLast(n: nat, count: nat)
    requires count > 0
    ensures BigEndian(n, count)[count - 1] == n % 256 && BigEndian(n, count)[..count - 1] == BigEndian(n / 256, count - 1)
  {
  }

  function Pow256(n: nat): (r: nat)
    ensures r >= 1
  {
    if n == 0 then 1 else 256 * Pow256(n - 1)
  }

  lemma {:induction false} BigEndianOfBytes(b: seq<Byte>)
    ensures FromBigEndian(b) < Pow256(|b|) && BigEndian(FromBigEndian(b), |b|) == b
  {
    if b != [] {
      var front, last := b[..|b| - 1], b[|b| - 1];
      BigEndianOfBytes(front);
      assert (256 * FromBigEndian(front) + last) / 256 == FromBigEndian(front);
      assert b == front + [last];
    }
  }

  lemma {:induction false} BigEndianRoundTrip(n: nat, count: nat)
    requires n < Pow256(count)
    ensures FromBigEndian(BigEndian(n, count)) == n
  {
    if count > 0 {
      BigEndianRoundTrip(n / 256, count - 1);
      assert BigEndian(n, count)[..count - 1] == BigEndian(n / 256, count - 1);
    }
  }
}
