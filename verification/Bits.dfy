/** Bit strings, the little-endian codes the LZ coder writes, and their packing into characters. */
module Bits {

  function Pow2(n: nat): (r: nat)
    ensures r >= 1
  {
    if n == 0 then 1 else 2 * Pow2(n - 1)
  }

  function BitValue(b: bool): (r: nat)
    ensures r <= 1
  {
    if b then 1 else 0
  }

  // ---- Codes: least-significant bit first ---------------------------------------------

  /** The low `n` bits of `v`, least significant first: what one emission loop writes. */
  function BitsOf(v: nat, n: nat): (r: seq<bool>)
    ensures |r| == n
  {
    if n == 0 then [] else [v % 2 == 1] + BitsOf(v / 2, n - 1)
  }

  /** The number whose bits, least significant first, are `bits`. */
  function LsbValue(bits: seq<bool>): (r: nat)
    ensures r < Pow2(|bits|)
  {
    if bits == [] then 0 else BitValue(bits[0]) + 2 * LsbValue(bits[1..])
  }

  /** Codes are written least significant bit first. */
  lemma {:induction false} BitsOfAt(v: nat, n: nat, k: nat)
    requires k < n
    ensures BitsOf(v, n)[k] == Bit(v, k)
    decreases k
  {
    if k > 0 { BitsOfAt(v / 2, n - 1, k - 1); }
  }

  lemma {:induction false} BitsOfValue(v: nat, n: nat)
    requires v < Pow2(n)
    ensures LsbValue(BitsOf(v, n)) == v
  {
    if n > 0 {
      BitsOfValue(v / 2, n - 1);
      assert BitsOf(v, n)[1..] == BitsOf(v / 2, n - 1);
    }
  }

  /** `n` bits of `bits` from position `p`; positions past the end read as 0. */
  function Window(bits: seq<bool>, p: nat, n: nat): (r: seq<bool>)
    ensures |r| == n
  {
    seq(n, i requires 0 <= i < n => p + i < |bits| && bits[p + i])
  }

  function ReadAt(bits: seq<bool>, p: nat, n: nat): (r: nat)
    ensures r < Pow2(n)
  {
    LsbValue(Window(bits, p, n))
  }

  /** Bit layer: a code found in a bit string at `p` is read back as the value that was written. */
  lemma ReadBack(bits: seq<bool>, p: nat, v: nat, n: nat)
    requires p + n <= |bits| && bits[p..p + n] == BitsOf(v, n)
    requires v < Pow2(n)
    ensures ReadAt(bits, p, n) == v
  {
    assert Window(bits, p, n) == bits[p..p + n];
    BitsOfValue(v, n);
  }

  lemma {:induction false} LsbValueSnoc(bits: seq<bool>, b: bool)
    ensures LsbValue(bits + [b]) == LsbValue(bits) + BitValue(b) * Pow2(|bits|)
  {
    hide *;
    LsbValueStep(bits + [b]);
    LsbValueStep(bits);
    Pow2Twice(|bits|);
    BitValues();
    if bits == [] {
      assert (bits + [b])[1..] == [];
      LsbValueStep([]);
    } else {
      LsbValueSnoc(bits[1..], b);
      assert (bits + [b])[1..] == bits[1..] + [b];
      assert |bits[1..]| == |bits| - 1;
      if !b { assert BitValue(b) * Pow2(|bits|) == 0 == BitValue(b) * Pow2(|bits| - 1); }
    }
  }

  lemma LsbValueStep(bits: seq<bool>)
    ensures bits == [] ==> LsbValue(bits) == 0
    ensures bits != [] ==> LsbValue(bits) == BitValue(bits[0]) + 2 * LsbValue(bits[1..])
  {
  }

  lemma BitValues()
    ensures BitValue(false) == 0 && BitValue(true) == 1
  {
  }

  lemma Pow2Twice(n: nat)
    ensures if n == 0 then Pow2(n) == 1 else Pow2(n) == 2 * Pow2(n - 1) && Pow2(n - 1) > 0
  {
  }

  // ---- Characters: most-significant bit first -----------------------------------------

  function MsbValue(bits: seq<bool>): (r: nat)
    ensures r < Pow2(|bits|)
  {
    if bits == [] then 0 else 2 * MsbValue(bits[..|bits| - 1]) + BitValue(bits[|bits| - 1])
  }

  lemma MsbSnoc(bits: seq<bool>, b: bool)
    ensures MsbValue(bits + [b]) == 2 * MsbValue(bits) + BitValue(b)
  {
    assert (bits + [b])[..|bits|] == bits;
  }

  /** Bit `k` of `v`, in two's complement when `v` is negative. */
  predicate Bit(v: int, k: nat)
    decreases k
  {
    if k == 0 then v % 2 == 1 else Bit(v / 2, k - 1)
  }

  /** Bit `k` counts from the low end. */
  lemma BitIsQuotient(v: int, k: nat)
    ensures Bit(v, k) <==> v / Pow2(k) % 2 == 1
  {
    MaskedIsBit(v, k);
  }

  function CharBits(v: int, width: nat): (r: seq<bool>)
    ensures |r| == width
  {
    seq(width, k requires 0 <= k < width => Bit(v, width - 1 - k))
  }

  lemma {:induction false} CharBitsOfMsb(bits: seq<bool>)
    ensures CharBits(MsbValue(bits), |bits|) == bits
  {
    if bits != [] {
      var n := |bits| - 1;
      CharBitsOfMsb(bits[..n]);
      var v, u := MsbValue(bits), MsbValue(bits[..n]);
      assert v / 2 == u && (v % 2 == 1 <==> bits[n]);
      forall k | 0 <= k < n
        ensures CharBits(v, n + 1)[k] == bits[k]
      {
        assert Bit(v, n - k) == Bit(u, n - 1 - k);
        assert CharBits(u, n)[k] == bits[..n][k];
      }
      assert Bit(v, 0) == bits[n];
    }
  }

  /** Testing bit `k` by masking with 2^k. */
  predicate Masked(v: int, mask: nat)
    requires mask > 0
  {
    (v / mask) % 2 == 1
  }

  lemma HalveThenDivide(v: int, m: nat)
    requires m > 0
    ensures (v / 2) / m == v / (2 * m)
  {
    var q, r := v / (2 * m), v % (2 * m);
    assert v == 2 * m * q + r;
    assert v / 2 == m * q + r / 2;
    assert 0 <= r / 2 < m;
    QuotientUnique(v / 2, m, q, r / 2);
  }

  lemma QuotientUnique(x: int, m: nat, q: int, r: int)
    requires m > 0 && 0 <= r < m && x == m * q + r
    ensures x / m == q
  {
    var d := q - x / m;
    assert m * d == x % m - r by {
      assert m * (q - x / m) == m * q - m * (x / m);
    }
    if d >= 1 {
      MulAtLeast(m, d);
    } else if d <= -1 {
      MulAtLeast(m, -d);
    }
  }

  lemma HalfRemainder(x: int, p: nat)
    requires p > 0
    ensures x % (2 * p) == x % 2 + 2 * ((x / 2) % p)
  {
    var q, r := (x / 2) / p, (x / 2) % p;
    assert x / 2 == p * q + r;
    assert x == (2 * p) * q + (x % 2 + 2 * r);
    QuotientUnique(x, 2 * p, q, x % 2 + 2 * r);
  }

  lemma MulAtLeast(m: nat, d: nat)
    requires d >= 1
    ensures m * d >= m
  {
    assert m * d == m + m * (d - 1);
  }

  lemma MaskedHalf(v: int, m: nat)
    requires m > 0
    ensures Masked(v, 2 * m) == Masked(v / 2, m)
  {
    HalveThenDivide(v, m);
  }

  lemma {:induction false} MaskedIsBit(v: int, k: nat)
    ensures Masked(v, Pow2(k)) == Bit(v, k)
    decreases k
  {
    if k > 0 {
      MaskedHalf(v, Pow2(k - 1));
      MaskedIsBit(v / 2, k - 1);
    }
  }

  // ---- Packing --------------------------------------------------------------------------

  /** `n` bits fill whole characters. */
  predicate Whole(n: nat, width: nat)
    requires width > 0
  {
    n % width == 0
  }

  /** Groups of `width` bits, each read most significant bit first. */
  function Pack(bits: seq<bool>, width: nat): (r: seq<nat>)
    requires width > 0
    ensures forall i :: 0 <= i < |r| ==> r[i] < Pow2(width)
  {
    if |bits| < width then []
    else Pack(bits[..|bits| - width], width) + [MsbValue(bits[|bits| - width..])]
  }

  /** The bit string a decoder sees in a sequence of character values. */
  function Unpack(chars: seq<int>, width: nat): seq<bool> {
    if chars == [] then []
    else Unpack(chars[..|chars| - 1], width) + CharBits(chars[|chars| - 1], width)
  }

  lemma {:induction false} UnpackLength(chars: seq<int>, width: nat)
    ensures |Unpack(chars, width)| == |chars| * width
  {
    hide *;
    UnpackStep(chars, width);
    if chars != [] {
      UnpackLength(chars[..|chars| - 1], width);
      Successor(|chars| - 1, width);
    }
  }

  lemma UnpackStep(chars: seq<int>, width: nat)
    ensures if chars == [] then Unpack(chars, width) == []
            else Unpack(chars, width) == Unpack(chars[..|chars| - 1], width) + CharBits(chars[|chars| - 1], width)
    ensures |chars| * width == if chars == [] then 0 else (|chars| - 1) * width + width
  {
    hide CharBits;
    if chars != [] { Successor(|chars| - 1, width); }
  }

  lemma Successor(n: nat, width: nat)
    ensures (n + 1) * width == n * width + width
  {
  }

  lemma MulNonNegative(a: nat, b: nat)
    ensures a * b >= 0
  {
  }

  lemma Distribute(a: int, b: int, m: int)
    ensures (a + b) * m == a * m + b * m
  {
  }

  /** Filling up to the next multiple. */
  lemma FillsUp(n: nat, width: nat)
    requires width > 0
    ensures 0 < width - n % width <= width && (n + (width - n % width)) % width == 0
  {
    var q, r := n / width, n % width;
    assert n == width * q + r;
    Multiple(q + 1, width);
    assert width * (q + 1) == width * q + width;
  }

  lemma ModPrevious(n: nat, width: nat)
    requires 0 < width && n % width == 0 && n > 0
    ensures n >= width && (n - width) % width == 0
  {
    var q := n / width;
    assert n == width * q;
    assert width * q == width * (q - 1) + width;
    Multiple(q - 1, width);
  }

  lemma WholePrevious(n: nat, width: nat)
    requires width > 0 && Whole(n, width) && n > 0
    ensures n >= width && Whole(n - width, width)
  {
    ModPrevious(n, width);
  }

  lemma Multiple(k: nat, width: nat)
    requires 0 < width
    ensures (width * k) % width == 0
  {
    QuotientUnique(width * k, width, k, 0);
  }

  /** Packing whole characters loses nothing. */
  lemma {:induction false} UnpackPack(bits: seq<bool>, width: nat)
    requires width > 0 && Whole(|bits|, width)
    ensures Unpack(Pack(bits, width), width) == bits
    decreases |bits|
  {
    hide *;
    PackStep(bits, width);
    if bits == [] {
      UnpackNil(width);
    } else {
      WholePrevious(|bits|, width);
      var m := |bits| - width;
      UnpackPack(bits[..m], width);
      CharBitsOfMsb(bits[m..]);
      UnpackAppendOne(Pack(bits[..m], width), MsbValue(bits[m..]), width);
      assert bits[..m] + bits[m..] == bits;
    }
  }

  lemma PackStep(bits: seq<bool>, width: nat)
    requires width > 0
    ensures if |bits| < width then Pack(bits, width) == []
            else Pack(bits, width) == Pack(bits[..|bits| - width], width) + [MsbValue(bits[|bits| - width..])]
  {
    hide MsbValue;
  }

  lemma UnpackAppendOne(front: seq<int>, c: int, width: nat)
    ensures Unpack(front + [c], width) == Unpack(front, width) + CharBits(c, width)
  {
    assert (front + [c])[..|front|] == front;
  }

  lemma {:induction false} UnpackAppend(a: seq<int>, b: seq<int>, width: nat)
    ensures Unpack(a + b, width) == Unpack(a, width) + Unpack(b, width)
    decreases |b|
  {
    hide CharBits, Unpack;
    if b == [] {
      assert a + b == a;
      UnpackNil(width);
    } else {
      var front, c := b[..|b| - 1], b[|b| - 1];
      assert b == front + [c] && a + b == (a + front) + [c];
      UnpackAppendOne(front, c, width);
      UnpackAppendOne(a + front, c, width);
      UnpackAppend(a, front, width);
      Associative(Unpack(a, width), Unpack(front, width), CharBits(c, width));
    }
  }

  lemma UnpackNil(width: nat)
    ensures Unpack([], width) == []
  {
  }

  lemma Associative(a: seq<bool>, b: seq<bool>, c: seq<bool>)
    ensures (a + b) + c == a + (b + c)
  {
  }

  lemma {:induction false} UnpackAt(chars: seq<int>, width: nat, i: nat, k: nat)
    requires i < |chars| && k < width
    ensures i * width + k < |Unpack(chars, width)|
    ensures Unpack(chars, width)[i * width + k] == Bit(chars[i], width - 1 - k)
  {
    hide *;
    var n := |chars| - 1;
    UnpackStep(chars, width);
    UnpackLength(chars[..n], width);
    PositionOrder(i, n, width, k);
    if i < n {
      UnpackAt(chars[..n], width, i, k);
    } else {
      CharBitAt(chars[n], width, k);
    }
  }

  lemma CharBitAt(v: int, width: nat, k: nat)
    requires k < width
    ensures CharBits(v, width)[k] == Bit(v, width - 1 - k)
  {
  }

  lemma PositionOrder(i: nat, n: nat, width: nat, k: nat)
    requires k < width
    ensures i * width + k >= n * width <==> i >= n
    ensures i * width >= 0
  {
    MulNonNegative(i, width);
    if i >= n {
      Distribute(n, i - n, width);
      MulNonNegative(i - n, width);
    } else {
      Distribute(i + 1, n - i - 1, width);
      Successor(i, width);
      MulNonNegative(n - i - 1, width);
    }
  }

  function Zeros(n: nat): (r: seq<bool>)
    ensures |r| == n && forall i :: 0 <= i < n ==> !r[i]
  {
    seq(n, i => false)
  }

  /** The stream completed to whole characters: always at least one padding bit. */
  function Padded(bits: seq<bool>, width: nat): (r: seq<bool>)
    requires width > 0
    ensures |bits| < |r| <= |bits| + width && r[..|bits|] == bits
    ensures forall i :: |bits| <= i < |r| ==> !r[i]
    ensures Whole(|r|, width)
  {
    FillsUp(|bits|, width);
    bits + Zeros(width - |bits| % width)
  }

  // ---- Sequences of codes ---------------------------------------------------------------

  /** A value and the number of bits it is written with. */
  datatype Code = Code(value: nat, width: nat)

  function WriteCodes(codes: seq<Code>): seq<bool> {
    if codes == [] then [] else BitsOf(codes[0].value, codes[0].width) + WriteCodes(codes[1..])
  }

  /** The values read from position `p` on with the widths of `codes`. */
  function ReadCodes(bits: seq<bool>, p: nat, codes: seq<Code>): (r: seq<nat>)
    decreases |codes|
  {
    if codes == [] then [] else [ReadAt(bits, p, codes[0].width)] + ReadCodes(bits, p + codes[0].width, codes[1..])
  }

  function Values(codes: seq<Code>): seq<nat> {
    seq(|codes|, i requires 0 <= i < |codes| => codes[i].value)
  }

  predicate AllFit(codes: seq<Code>) {
    forall i :: 0 <= i < |codes| ==> codes[i].value < Pow2(codes[i].width)
  }

  lemma {:induction false} CodesReadBack(codes: seq<Code>, before: seq<bool>, after: seq<bool>)
    requires AllFit(codes)
    ensures ReadCodes(before + WriteCodes(codes) + after, |before|, codes) == Values(codes)
    decreases |codes|
  {
    hide *;
    var bits := before + WriteCodes(codes) + after;
    CodesStep(codes, bits, |before|);
    if codes != [] {
      var code, rest := codes[0], codes[1..];
      var first := BitsOf(code.value, code.width);
      assert bits == (before + first) + WriteCodes(rest) + after;
      CodesReadBack(rest, before + first, after);
      assert bits[|before|..|before| + code.width] == first;
      ReadBack(bits, |before|, code.value, code.width);
    }
  }

  lemma CodesStep(codes: seq<Code>, bits: seq<bool>, p: nat)
    requires AllFit(codes)
    ensures if codes == [] then WriteCodes(codes) == [] && ReadCodes(bits, p, codes) == Values(codes)
            else
              && WriteCodes(codes) == BitsOf(codes[0].value, codes[0].width) + WriteCodes(codes[1..])
              && ReadCodes(bits, p, codes) ==
                 [ReadAt(bits, p, codes[0].width)] + ReadCodes(bits, p + codes[0].width, codes[1..])
              && Values(codes) == [codes[0].value] + Values(codes[1..])
              && AllFit(codes[1..]) && codes[0].value < Pow2(codes[0].width)
  {
    hide ReadAt, BitsOf, Pow2;
  }

  /** Codes of any widths survive being written, padded and packed into characters, and reading all
      of them leaves at least one bit unread. */
  lemma CodesRoundTrip(codes: seq<Code>, width: nat)
    requires width > 0 && AllFit(codes)
    ensures var stream := Unpack(Pack(Padded(WriteCodes(codes), width), width), width);
            ReadCodes(stream, 0, codes) == Values(codes) && |WriteCodes(codes)| < |stream|
  {
    hide *;
    var bits := WriteCodes(codes);
    var padded := Padded(bits, width);
    UnpackPack(padded, width);
    CodesReadBack(codes, [], padded[|bits|..]);
    assert [] + bits + padded[|bits|..] == padded;
  }

  // ---- Bits of sums -----------------------------------------------------------------------

  lemma BitStep(v: int, k: nat)
    requires k > 0
    ensures Bit(v, k) == Bit(v / 2, k - 1)
  {
  }

  lemma {:induction false} BitOfQuotient(v: int, n: nat, k: nat)
    ensures Bit(v, n + k) == Bit(v / Pow2(n), k)
    decreases n
  {
    hide *;
    Pow2Twice(n);
    if n > 0 {
      BitStep(v, n + k);
      BitOfQuotient(v / 2, n - 1, k);
      HalveThenDivide(v, Pow2(n - 1));
    } else {
      assert v / 1 == v;
    }
  }

  /** Multiplying by 2^n moves the bits up; below them come those of a number less than 2^n. */
  lemma {:induction false} BitOfSum(low: nat, high: int, n: nat, k: nat)
    requires low < Pow2(n)
    ensures Bit(low + high * Pow2(n), k) == if k < n then Bit(low, k) else Bit(high, k - n)
    decreases n
  {
    hide *;
    Pow2Twice(n);
    if n > 0 {
      var p := Pow2(n - 1);
      var v := low + high * Pow2(n);
      HalfOfSum(low, high, p);
      LowBit(v);
      LowBit(low);
      if k > 0 {
        BitStep(v, k);
        BitStep(low, k);
        BitOfSum(low / 2, high, n - 1, k - 1);
      }
    } else {
      assert high * 1 == high;
    }
  }

  lemma LowBit(v: int)
    ensures Bit(v, 0) <==> v % 2 == 1
  {
  }

  lemma HalfOfSum(low: nat, high: int, p: nat)
    requires low < 2 * p
    ensures (low + high * (2 * p)) / 2 == low / 2 + high * p && (low + high * (2 * p)) % 2 == low % 2
    ensures low / 2 < p
  {
    assert high * (2 * p) == 2 * (high * p);
  }
}
