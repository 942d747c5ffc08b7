/** SHA-256 as FIPS 180-4 defines it, on 32-bit words. */
module Fips180 {
  import opened Bytes
  import opened Words

  // ---- Section 4.1.2: functions ----------------------------------------------------------------

  function Ch(x: Word, y: Word, z: Word): Word { Xor(And(x, y), And(Not(x), z)) }
  function Maj(x: Word, y: Word, z: Word): Word { Xor(Xor(And(x, y), And(x, z)), And(y, z)) }
  function BigSigma0(x: Word): Word { Xor(Xor(RotateRight(2, x), RotateRight(13, x)), RotateRight(22, x)) }
  function BigSigma1(x: Word): Word { Xor(Xor(RotateRight(6, x), RotateRight(11, x)), RotateRight(25, x)) }
  function SmallSigma0(x: Word): Word { Xor(Xor(RotateRight(7, x), RotateRight(18, x)), ShiftRight(x, 3)) }
  function SmallSigma1(x: Word): Word { Xor(Xor(RotateRight(17, x), RotateRight(19, x)), ShiftRight(x, 10)) }

  /** Addition modulo 2^32. */
  function Add(x: Word, y: Word): Word { (x + y) % MODULUS }

  // ---- Section 4.2.2: constants -----------------------------------------------------------------

  const K_0: seq<Word> := [
    0x428a2f98, 0x71374491, 0xb5c0fbcf, 0xe9b5dba5, 0x3956c25b, 0x59f111f1, 0x923f82a4, 0xab1c5ed5]
  const K_1: seq<Word> := [
    0xd807aa98, 0x12835b01, 0x243185be, 0x550c7dc3, 0x72be5d74, 0x80deb1fe, 0x9bdc06a7, 0xc19bf174]
  const K_2: seq<Word> := [
    0xe49b69c1, 0xefbe4786, 0x0fc19dc6, 0x240ca1cc, 0x2de92c6f, 0x4a7484aa, 0x5cb0a9dc, 0x76f988da]
  const K_3: seq<Word> := [
    0x983e5152, 0xa831c66d, 0xb00327c8, 0xbf597fc7, 0xc6e00bf3, 0xd5a79147, 0x06ca6351, 0x14292967]
  const K_4: seq<Word> := [
    0x27b70a85, 0x2e1b2138, 0x4d2c6dfc, 0x53380d13, 0x650a7354, 0x766a0abb, 0x81c2c92e, 0x92722c85]
  const K_5: seq<Word> := [
    0xa2bfe8a1, 0xa81a664b, 0xc24b8b70, 0xc76c51a3, 0xd192e819, 0xd6990624, 0xf40e3585, 0x106aa070]
  const K_6: seq<Word> := [
    0x19a4c116, 0x1e376c08, 0x2748774c, 0x34b0bcb5, 0x391c0cb3, 0x4ed8aa4a, 0x5b9cca4f, 0x682e6ff3]
  const K_7: seq<Word> := [
    0x748f82ee, 0x78a5636f, 0x84c87814, 0x8cc70208, 0x90befffa, 0xa4506ceb, 0xbef9a3f7, 0xc67178f2]

  const K: seq<Word> := K_0 + K_1 + K_2 + K_3 + K_4 + K_5 + K_6 + K_7

  lemma KLength()
    ensures |K| == 64
  {
  }

  // ---- Section 5: padding, parsing, initial value -------------------------------------------------

  type Block = b: seq<Byte> | |b| == 64 witness seq(64, _ => 0)
  type Digest = h: seq<Word> | |h| == 8 witness seq(8, _ => 0)

  const H0: Digest := [
    0x6a09e667, 0xbb67ae85, 0x3c6ef372, 0xa54ff53a, 0x510e527f, 0x9b05688c, 0x1f83d9ab, 0x5be0cd19]

  /** The least number of zero bytes that completes the last block. */
  function ZeroBytes(length: nat): nat {
    (119 - length % 64) % 64
  }

  lemma PaddedLength(length: nat)
    ensures (length + 1 + ZeroBytes(length) + 8) % 64 == 0
  {
    var q, r := length / 64, length % 64;
    assert length == 64 * q + r;
    if r <= 55 {
      assert ZeroBytes(length) == 55 - r;
    } else {
      assert ZeroBytes(length) == 119 - r;
    }
  }

  /** The message, one bit 1, zero bits, and the length in bits as 64 bits. */
  function Padded(message: seq<Byte>): (r: seq<Byte>)
    ensures |r| % 64 == 0
  {
    PaddedLength(|message|);
    message + [0x80] + seq(ZeroBytes(|message|), _ => 0) + BigEndian(8 * |message|, 8)
  }

  function WordAt(block: Block, i: nat): Word
    requires i < 16
  {
    var b := block[4 * i..4 * i + 4];
    b[0] as int * 0x100_0000 + b[1] as int * 0x1_0000 + b[2] as int * 0x100 + b[3] as int
  }

  // ---- Section 6.2.2: hash computation --------------------------------------------------------------

  function Schedule(block: Block, t: nat): Word {
    if t < 16 then WordAt(block, t)
    else Add(Add(SmallSigma1(Schedule(block, t - 2)), Schedule(block, t - 7)),
             Add(SmallSigma0(Schedule(block, t - 15)), Schedule(block, t - 16)))
  }

  datatype Registers = Registers(a: Word, b: Word, c: Word, d: Word, e: Word, f: Word, g: Word, h: Word)

  function Round(r: Registers, k: Word, w: Word): Registers {
    var t1 := Add(Add(Add(r.h, BigSigma1(r.e)), Add(Ch(r.e, r.f, r.g), k)), w);
    var t2 := Add(BigSigma0(r.a), Maj(r.a, r.b, r.c));
    Registers(Add(t1, t2), r.a, r.b, r.c, Add(r.d, t1), r.e, r.f, r.g)
  }

  function Rounds(start: Registers, block: Block, t: nat): Registers
    requires t <= 64
  {
    if t == 0 then start else KLength(); Round(Rounds(start, block, t - 1), K[t - 1], Schedule(block, t - 1))
  }

  function Load(h: Digest): Registers {
    Registers(h[0], h[1], h[2], h[3], h[4], h[5], h[6], h[7])
  }

  function Compress(h: Digest, block: Block): Digest {
    var r := Rounds(Load(h), block, 64);
    [Add(r.a, h[0]), Add(r.b, h[1]), Add(r.c, h[2]), Add(r.d, h[3]),
     Add(r.e, h[4]), Add(r.f, h[5]), Add(r.g, h[6]), Add(r.h, h[7])]
  }

  function HashBlocks(h: Digest, bytes: seq<Byte>): Digest {
    if |bytes| < 64 then h else Compress(HashBlocks(h, bytes[..|bytes| - 64]), bytes[|bytes| - 64..])
  }

  function Sha256(message: seq<Byte>): Digest {
    HashBlocks(H0, Padded(message))
  }

  // ---- Printing --------------------------------------------------------------------------------------

  const HEX_DIGITS := "0123456789abcdef"

  /** The last `count` hexadecimal digits of `n`. */
  function Hex(n: nat, count: nat): (r: string)
    ensures |r| == count
  {
    if count == 0 then [] else Hex(n / 16, count - 1) + [HEX_DIGITS[n % 16]]
  }

  function HexDigest(h: seq<Word>): string {
    if h == [] then [] else HexDigest(h[..|h| - 1]) + Hex(h[|h| - 1], 8)
  }
}
