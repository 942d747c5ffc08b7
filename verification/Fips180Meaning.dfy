/** What the functions of FIPS 180-4 mean bit by bit and byte by byte, without the arithmetic that
    computes them. */
module Fips180Meaning {
  import opened Bits
  import opened Bytes
  import opened Fips180
  import opened Words

  // ---- Bits of words ------------------------------------------------------------------------------

  lemma {:induction false} ComplementBit(x: nat, n: nat, k: nat)
    requires x < Pow2(n) && k < n
    ensures Bit(Pow2(n) - 1 - x, k) == !Bit(x, k)
    decreases n
  {
    var p := Pow2(n - 1);
    assert (2 * p - 1 - x) / 2 == p - 1 - x / 2;
    if k > 0 { ComplementBit(x / 2, n - 1, k - 1); }
  }

  lemma OperatorBits(x: Word, y: Word, k: nat)
    requires k < 32
    ensures Bit(And(x, y), k) == (Bit(x, k) && Bit(y, k))
    ensures Bit(Or(x, y), k) == (Bit(x, k) || Bit(y, k))
    ensures Bit(Xor(x, y), k) == (Bit(x, k) != Bit(y, k))
    ensures Bit(Not(x), k) == !Bit(x, k)
  {
    hide Combine, Pow2, Bit;
    Pow32();
    CombineBit(Both, x, y, 32, k);
    CombineBit(Either, x, y, 32, k);
    CombineBit(Differ, x, y, 32, k);
    ComplementBit(x, 32, k);
  }

  /** Section 4.1.2: Ch chooses between its arguments, Maj is their majority. */
  lemma ChoiceBits(x: Word, y: Word, z: Word, k: nat)
    requires k < 32
    ensures Bit(Ch(x, y, z), k) == if Bit(x, k) then Bit(y, k) else Bit(z, k)
    ensures Bit(Maj(x, y, z), k) ==
            ((Bit(x, k) && Bit(y, k)) || (Bit(x, k) && Bit(z, k)) || (Bit(y, k) && Bit(z, k)))
  {
    hide And, Xor, Not, Bit;
    OperatorBits(x, y, k);
    OperatorBits(Not(x), z, k);
    OperatorBits(And(x, y), And(Not(x), z), k);
    OperatorBits(x, z, k);
    OperatorBits(y, z, k);
    OperatorBits(And(x, y), And(x, z), k);
    OperatorBits(Xor(And(x, y), And(x, z)), And(y, z), k);
  }

  lemma ShiftBit(x: Word, n: nat, k: nat)
    ensures Bit(ShiftRight(x, n), k) == Bit(x, k + n)
  {
    BitOfQuotient(x, n, k);
  }

  /** ROTR moves bit k + n, counted around the word, to bit k. */
  lemma RotateBit(n: nat, x: Word, k: nat)
    requires n <= 32 && k < 32
    ensures Bit(RotateRight(n, x), k) == Bit(x, (k + n) % 32)
  {
    hide Bit, Pow2;
    var p, low := Pow2(n), ShiftRight(x, n);
    RotateInRange(n, x);
    assert RotateRight(n, x) == low + (x % p) * Pow2(32 - n);
    BitOfSum(low, x % p, 32 - n, k);
    if k < 32 - n {
      ShiftBit(x, n, k);
    } else {
      BitOfRemainder(x, n, k - (32 - n));
    }
  }

  lemma BitOfRemainder(x: nat, n: nat, k: nat)
    requires k < n
    ensures Bit(x % Pow2(n), k) == Bit(x, k)
  {
    hide Bit, Pow2;
    var p := Pow2(n);
    assert x == x % p + (x / p) * p;
    BitOfSum(x % p, x / p, n, k);
  }

  ghost predicate Odd(a: bool, b: bool, c: bool) {
    (a != b) != c
  }

  /** Bit k of x, counted around the word. */
  ghost predicate Around(x: Word, k: nat) {
    Bit(x, k % 32)
  }

  /** Section 4.1.2: three rotations each, or two rotations and a shift that brings in zeros. */
  lemma SigmaBits(x: Word, k: nat)
    requires k < 32
    ensures Bit(BigSigma0(x), k) == Odd(Around(x, k + 2), Around(x, k + 13), Around(x, k + 22))
    ensures Bit(BigSigma1(x), k) == Odd(Around(x, k + 6), Around(x, k + 11), Around(x, k + 25))
    ensures Bit(SmallSigma0(x), k) == Odd(Around(x, k + 7), Around(x, k + 18), k + 3 < 32 && Bit(x, k + 3))
    ensures Bit(SmallSigma1(x), k) == Odd(Around(x, k + 17), Around(x, k + 19), k + 10 < 32 && Bit(x, k + 10))
  {
    hide Xor, RotateRight, ShiftRight, Bit;
    ThreeBits(RotateRight(2, x), RotateRight(13, x), RotateRight(22, x), k);
    ThreeBits(RotateRight(6, x), RotateRight(11, x), RotateRight(25, x), k);
    ThreeBits(RotateRight(7, x), RotateRight(18, x), ShiftRight(x, 3), k);
    ThreeBits(RotateRight(17, x), RotateRight(19, x), ShiftRight(x, 10), k);
    RotateBit(2, x, k);
    RotateBit(13, x, k);
    RotateBit(22, x, k);
    RotateBit(6, x, k);
    RotateBit(11, x, k);
    RotateBit(25, x, k);
    RotateBit(7, x, k);
    RotateBit(18, x, k);
    RotateBit(17, x, k);
    RotateBit(19, x, k);
    ShiftBit(x, 3, k);
    ShiftBit(x, 10, k);
    NoHighBit(x, k + 3);
    NoHighBit(x, k + 10);
  }

  lemma ThreeBits(a: Word, b: Word, c: Word, k: nat)
    requires k < 32
    ensures Bit(Xor(Xor(a, b), c), k) == Odd(Bit(a, k), Bit(b, k), Bit(c, k))
  {
    hide Xor, Bit;
    OperatorBits(a, b, k);
    OperatorBits(Xor(a, b), c, k);
  }

  lemma NoHighBit(x: Word, k: nat)
    ensures k >= 32 ==> !Bit(x, k)
  {
    hide Bit, Pow2;
    if k >= 32 {
      Pow32();
      BitOfSum(x, 0, 32, k);
      ZeroBits(k - 32);
    }
  }

  lemma {:induction false} ZeroBits(k: nat)
    ensures !Bit(0, k)
  {
    if k > 0 { ZeroBits(k - 1); }
  }

  // ---- Bytes --------------------------------------------------------------------------------------

  /** Section 5.1.1: the message, one bit 1, as few zero bits as complete a block, and the length in
      bits; the message is shorter than 2^61 bytes. */
  lemma PaddedIs(message: seq<Byte>)
    requires |message| < 0x2000_0000_0000_0000
    ensures var p, n := Fips180.Padded(message), |message|;
            && |p| % 64 == 0 && n + 9 <= |p| < n + 9 + 64
            && p[..n] == message && p[n] == 0x80
            && (forall i :: n < i < |p| - 8 ==> p[i] == 0)
            && FromBigEndian(p[|p| - 8..]) == 8 * n
  {
    hide BigEndian, FromBigEndian;
    var p, n := Fips180.Padded(message), |message|;
    assert p[|p| - 8..] == BigEndian(8 * n, 8);
    Pow256Of8();
    BigEndianRoundTrip(8 * n, 8);
  }

  lemma Pow256Of8()
    ensures Pow256(8) == 0x1_0000_0000_0000_0000
  {
    assert Pow256(2) == 65536;
    assert Pow256(4) == 65536 * Pow256(2);
    assert Pow256(6) == 65536 * Pow256(4);
    assert Pow256(8) == 65536 * Pow256(6);
  }

  /** Section 5.2.1: word i of a block is its bytes from 4 * i on, the first of them highest. */
  lemma WordAtIs(block: Block, i: nat)
    requires i < 16
    ensures WordAt(block, i) == FromBigEndian(block[4 * i..4 * i + 4])
  {
    hide FromBigEndian;
    var b := block[4 * i..4 * i + 4];
    LastByte(b);
    LastByte(b[..3]);
    LastByte(b[..2]);
    LastByte(b[..1]);
    LastByte([]);
    assert b[..3][..2] == b[..2] && b[..2][..1] == b[..1] && b[..1][..0] == [];
  }

  lemma LastByte(b: seq<Byte>)
    ensures FromBigEndian(b) == if b == [] then 0 else 256 * FromBigEndian(b[..|b| - 1]) + b[|b| - 1]
  {
  }

  // ---- Section 6.2.2 as sums modulo 2^32 ------------------------------------------------------------

  lemma SumMod(x: int, y: int)
    ensures (x % MODULUS + y) % MODULUS == (x + y) % MODULUS == (x + y % MODULUS) % MODULUS
  {
  }

  /** Step 1: the message schedule. */
  lemma ScheduleIs(block: Block, t: nat)
    ensures t < 16 ==> Schedule(block, t) == WordAt(block, t)
    ensures t >= 16 ==>
              var sum := SmallSigma1(Schedule(block, t - 2)) + Schedule(block, t - 7)
                         + SmallSigma0(Schedule(block, t - 15)) + Schedule(block, t - 16);
              Schedule(block, t) == sum % 0x1_0000_0000
  {
    hide SmallSigma0, SmallSigma1, WordAt;
    if t >= 16 {
      var a: int, b: int := SmallSigma1(Schedule(block, t - 2)), Schedule(block, t - 7);
      var c: int, d: int := SmallSigma0(Schedule(block, t - 15)), Schedule(block, t - 16);
      SumMod(a + b, Add(c, d));
      SumMod(a + b, c + d);
    }
  }

  /** Step 3: one round. */
  lemma RoundIs(r: Registers, k: Word, w: Word)
    ensures var next := Round(r, k, w);
            var t1 := r.h + BigSigma1(r.e) + Ch(r.e, r.f, r.g) + k + w;
            var t2 := BigSigma0(r.a) + Maj(r.a, r.b, r.c);
            && next.h == r.g && next.g == r.f && next.f == r.e && next.e == (r.d + t1) % 0x1_0000_0000
            && next.d == r.c && next.c == r.b && next.b == r.a && next.a == (t1 + t2) % 0x1_0000_0000
  {
    hide BigSigma0, BigSigma1, Ch, Maj;
    var h: Word, s1: Word, ch: Word, s0: int, maj: int := r.h, BigSigma1(r.e), Ch(r.e, r.f, r.g), BigSigma0(r.a), Maj(r.a, r.b, r.c);
    FiveMod(h, s1, ch, k, w);
    var t1: int, t2: int := h as int + s1 + ch + k + w, s0 + maj;
    SumMod(r.d, t1);
    SumMod(t1, Add(s0, maj));
    SumMod(t1, t2);
  }

  lemma FiveMod(a: Word, b: Word, c: Word, d: Word, e: Word)
    ensures Add(Add(Add(a, b), Add(c, d)), e) == (a + b + c + d + e) % MODULUS
  {
    SumMod(a + b, Add(c, d));
    SumMod(a + b, c + d);
    SumMod(a + b + c + d, e);
  }

  /** Steps 2 to 4: 64 rounds from the intermediate hash value, then the sums with it. */
  lemma CompressIs(h: Digest, block: Block)
    ensures Rounds(Load(h), block, 0) == Registers(h[0], h[1], h[2], h[3], h[4], h[5], h[6], h[7])
    ensures var r := Rounds(Load(h), block, 64);
            Compress(h, block) == [(r.a + h[0]) % 0x1_0000_0000, (r.b + h[1]) % 0x1_0000_0000,
                                   (r.c + h[2]) % 0x1_0000_0000, (r.d + h[3]) % 0x1_0000_0000,
                                   (r.e + h[4]) % 0x1_0000_0000, (r.f + h[5]) % 0x1_0000_0000,
                                   (r.g + h[6]) % 0x1_0000_0000, (r.h + h[7]) % 0x1_0000_0000]
  {
    hide Round, Schedule;
  }

  // ---- Hexadecimal ----------------------------------------------------------------------------------

  predicate IsHexDigit(c: char) {
    '0' <= c <= '9' || 'a' <= c <= 'f'
  }

  function HexDigitValue(c: char): nat
    requires IsHexDigit(c)
  {
    if c <= '9' then (c - '0') as int else (c - 'a') as int + 10
  }

  /** The number that a text denotes in hexadecimal. */
  function HexNumber(s: string): nat
    requires forall c :: c in s ==> IsHexDigit(c)
  {
    if s == "" then 0 else 16 * HexNumber(s[..|s| - 1]) + HexDigitValue(s[|s| - 1])
  }

  lemma DigitsAre(d: nat)
    requires d < 16
    ensures |HEX_DIGITS| == 16 && IsHexDigit(HEX_DIGITS[d]) && HexDigitValue(HEX_DIGITS[d]) == d
  {
  }

  lemma {:induction false} HexDenotes(n: nat, count: nat)
    requires n < Pow2(4 * count)
    ensures |Hex(n, count)| == count
    ensures forall c :: c in Hex(n, count) ==> IsHexDigit(c)
    ensures HexNumber(Hex(n, count)) == n
    decreases count
  {
    hide IsHexDigit, HexDigitValue, Pow2, HEX_DIGITS;
    if count == 0 {
      Pow2Twice(0);
    } else {
      Pow2Sum(4, 4 * (count - 1));
      assert Pow2(4) == 16 by { Pow2OfFour(); }
      DigitsAre(n % 16);
      HexDenotes(n / 16, count - 1);
      var s := Hex(n, count);
      assert s[..count - 1] == Hex(n / 16, count - 1);
    }
  }

  lemma Pow2OfFour()
    ensures Pow2(4) == 16
  {
  }

  /** A digest is printed as eight hexadecimal digits for each of its words, in order. */
  lemma {:induction false} DigestDenotes(h: seq<Word>, i: nat)
    requires i < |h|
    ensures |HexDigest(h)| == 8 * |h|
    ensures var s := HexDigest(h)[8 * i..8 * i + 8];
            (forall c :: c in s ==> IsHexDigit(c)) && HexNumber(s) == h[i]
    decreases |h|
  {
    hide HexNumber, Hex, IsHexDigit, Pow2;
    var n := |h| - 1;
    HexDigestLength(h[..n]);
    if i < n {
      DigestDenotes(h[..n], i);
      assert HexDigest(h)[8 * i..8 * i + 8] == HexDigest(h[..n])[8 * i..8 * i + 8];
    } else {
      Pow32();
      HexDenotes(h[n], 8);
      assert HexDigest(h)[8 * i..8 * i + 8] == Hex(h[n], 8);
    }
  }

  lemma {:induction false} HexDigestLength(h: seq<Word>)
    ensures |HexDigest(h)| == 8 * |h|
    decreases |h|
  {
    if h != [] { HexDigestLength(h[..|h| - 1]); }
  }
}
