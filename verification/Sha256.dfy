/** sha256.js: JavaScript numbers that are never reduced stand for the words of FIPS 180-4. */
module Sha256 {
  import opened Bits
  import opened Bytes
  import opened Words
  import opened Fips180

  // ---- The pure helpers ---------------------------------------------------------------------------

  function JsRotateRight(n: nat, x: int): Number
    requires n <= 32
  {
    JsOr(JsShr(x, n), JsShl(x, 32 - n))
  }

  function Choice(x: int, y: int, z: int): Number { JsXor(JsAnd(x, y), JsAnd(JsNot(x), z)) }
  function Majority(x: int, y: int, z: int): Number { JsXor(JsXor(JsAnd(x, y), JsAnd(x, z)), JsAnd(y, z)) }
  function JsBigSigma0(x: int): Number { JsXor(JsXor(JsRotateRight(2, x), JsRotateRight(13, x)), JsRotateRight(22, x)) }
  function JsBigSigma1(x: int): Number { JsXor(JsXor(JsRotateRight(6, x), JsRotateRight(11, x)), JsRotateRight(25, x)) }
  function JsSmallSigma0(x: int): Number { JsXor(JsXor(JsRotateRight(7, x), JsRotateRight(18, x)), JsShr(x, 3)) }
  function JsSmallSigma1(x: int): Number { JsXor(JsXor(JsRotateRight(17, x), JsRotateRight(19, x)), JsShr(x, 10)) }

  /** 32-bit addition by 16-bit halves. */
  function SafeAdd(x: int, y: int): Number {
    var lsw := JsAnd(x, 0xffff) + JsAnd(y, 0xffff);
    var msw := JsSar(x, 16) + JsSar(y, 16) + JsSar(lsw, 16);
    JsOr(JsShl(msw, 16), JsAnd(lsw, 0xffff))
  }

  lemma ShiftLeftDrops(u: nat, p: nat, q: nat)
    requires p > 0 && q > 0
    ensures (u * q) % (p * q) == (u % p) * q
  {
    var d, r := u / p, u % p;
    assert u == p * d + r;
    assert u * q == (p * q) * d + r * q;
    assert p * q > 0 && 0 <= r * q < p * q by {
      MulNonNegative(r, q);
      MulNonNegative(p - 1 - r, q);
      assert p * q == r * q + q + (p - 1 - r) * q;
    }
    QuotientUnique(u * q, p * q, d, r * q);
  }

  lemma ShiftLeftIs(x: int, n: nat)
    requires n <= 32
    ensures ToUint32(JsShl(x, 32 - n)) == (ToUint32(x) % Pow2(n)) * Pow2(32 - n)
  {
    hide Pow2;
    Pow32();
    Pow2Sum(n, 32 - n);
    ShiftLeftDrops(ToUint32(x), Pow2(n), Pow2(32 - n));
  }

  /** The two shifts make a rotation. */
  lemma RotateRightIs(n: nat, x: int)
    requires n <= 32
    ensures ToUint32(JsRotateRight(n, x)) == RotateRight(n, ToUint32(x))
  {
    hide Pow2, Or, ShiftRight, JsOr, JsShl, JsShr, ToUint32;
    var u, p, q := ToUint32(x), Pow2(n), Pow2(32 - n);
    ShiftLeftIs(x, n);
    ShrIs(x, n);
    OrIs(JsShr(x, n), JsShl(x, 32 - n));
    RotateInRange(n, u);
    assert u % p < p;
    MulNonNegative(u % p, q);
    OrParts32(ShiftRight(u, n), u % p, 32 - n);
  }

  lemma LowHalf(x: int)
    ensures JsAnd(x, 0xffff) == ToUint32(x) % 65536
  {
    hide Combine;
    Pow32();
    AndMask(ToUint32(x), 16, 32);
  }

  lemma HighHalf(x: int)
    ensures JsSar(x, 16) == Signed(ToUint32(x)) / 65536
    ensures Signed(ToUint32(x)) == 65536 * JsSar(x, 16) + JsAnd(x, 0xffff)
  {
    hide Signed, JsAnd, Pow2;
    Pow32();
    LowHalf(x);
    SignedLow(ToUint32(x));
  }

  lemma SignedLow(w: Word)
    ensures Signed(w) % 65536 == w % 65536
  {
  }

  lemma JoinHalves(high: int, low: nat)
    requires low < 65536
    ensures ToUint32(JsOr(JsShl(high, 16), low)) == 65536 * (high % 65536) + low
  {
    hide ToUint32, JsShl, JsOr, Or, Pow2;
    Pow32();
    var shifted, m := JsShl(high, 16), ToUint32(high) % 65536;
    ShiftLeftIs(high, 16);
    WordIs(low);
    OrIs(shifted, low);
    OrSwap(ToUint32(shifted), low);
    OrParts32(low, m, 16);
    LowOf(high);
  }

  lemma OrSwap(x: Word, y: Word)
    ensures Or(x, y) == Or(y, x)
  {
    OrCommutes(x, y, 32);
  }

  lemma LowOf(x: int)
    ensures ToUint32(x) % 65536 == x % 65536
  {
  }

  lemma ModHalves(high: int, low: nat)
    requires low < 65536
    ensures ToUint32(65536 * high + low) == 65536 * (high % 65536) + low
  {
    QuotientUnique(65536 * high + low, MODULUS, high / 65536, 65536 * (high % 65536) + low);
  }

  lemma SignedSum(x: int, y: int)
    ensures ToUint32(Signed(ToUint32(x)) + Signed(ToUint32(y))) == ToUint32(x + y)
  {
  }

  /** The halves add up to the sum modulo 2^32. */
  lemma SafeAddIs(x: int, y: int)
    ensures ToUint32(SafeAdd(x, y)) == ToUint32(x + y)
    ensures -0x8000_0000 <= SafeAdd(x, y) < 0x8000_0000
  {
    hide JsAnd, JsSar, JsShl, Or, ToUint32;
    HighHalf(x);
    HighHalf(y);
    LowHalf(x);
    LowHalf(y);
    var lsw := JsAnd(x, 0xffff) + JsAnd(y, 0xffff);
    HighHalf(lsw);
    LowHalf(lsw);
    SmallSigned(lsw);
    var msw, low := JsSar(x, 16) + JsSar(y, 16) + JsSar(lsw, 16), JsAnd(lsw, 0xffff);
    assert 65536 * msw + low == Signed(ToUint32(x)) + Signed(ToUint32(y));
    JoinHalves(msw, low);
    ModHalves(msw, low);
    SignedSum(x, y);
  }

  lemma SmallSigned(n: nat)
    requires n < 0x8000_0000
    ensures Signed(ToUint32(n)) == n
  {
  }

  // ---- Congruence of the helpers --------------------------------------------------------------------

  /** Sums of congruent numbers are congruent. */
  lemma SumIs(x: int, y: int)
    ensures ToUint32(x + y) == Add(ToUint32(x), ToUint32(y))
  {
  }

  lemma ShrIs(x: int, n: nat)
    ensures ToUint32(JsShr(x, n)) == ShiftRight(ToUint32(x), n)
  {
  }

  lemma HelpersAre(x: int, y: int, z: int)
    ensures ToUint32(Choice(x, y, z)) == Ch(ToUint32(x), ToUint32(y), ToUint32(z))
    ensures ToUint32(Majority(x, y, z)) == Maj(ToUint32(x), ToUint32(y), ToUint32(z))
  {
    hide And, Xor, Not;
  }

  lemma SigmasAre(x: int)
    ensures ToUint32(JsBigSigma0(x)) == BigSigma0(ToUint32(x))
    ensures ToUint32(JsBigSigma1(x)) == BigSigma1(ToUint32(x))
    ensures ToUint32(JsSmallSigma0(x)) == SmallSigma0(ToUint32(x))
    ensures ToUint32(JsSmallSigma1(x)) == SmallSigma1(ToUint32(x))
  {
    hide Xor, JsRotateRight, RotateRight, ShiftRight;
    RotateRightIs(2, x);
    RotateRightIs(13, x);
    RotateRightIs(22, x);
    RotateRightIs(6, x);
    RotateRightIs(11, x);
    RotateRightIs(25, x);
    RotateRightIs(7, x);
    RotateRightIs(18, x);
    RotateRightIs(17, x);
    RotateRightIs(19, x);
    ShrIs(x, 3);
    ShrIs(x, 10);
  }

  /** One round on numbers congruent to the registers. */
  lemma RoundIs(a: int, b: int, c: int, d: int, e: int, f: int, g: int, h: int, k: Word, w: int, r: Registers)
    requires ToUint32(a) == r.a && ToUint32(b) == r.b && ToUint32(c) == r.c && ToUint32(d) == r.d
    requires ToUint32(e) == r.e && ToUint32(f) == r.f && ToUint32(g) == r.g && ToUint32(h) == r.h
    ensures var t1 := h + JsBigSigma1(e) + Choice(e, f, g) + k + w;
            var t2 := JsBigSigma0(a) + Majority(a, b, c);
            && ToUint32(SafeAdd(d, t1)) == Round(r, k, ToUint32(w)).e
            && ToUint32(SafeAdd(t1, t2)) == Round(r, k, ToUint32(w)).a
  {
    hide *;
    RoundFields(r, k, ToUint32(w));
    var s1: int, ch: int, s0: int, maj: int := JsBigSigma1(e), Choice(e, f, g), JsBigSigma0(a), Majority(a, b, c);
    var t1: int, t2: int := h + s1 + ch + k + w, s0 + maj;
    SigmasAre(e);
    SigmasAre(a);
    HelpersAre(e, f, g);
    HelpersAre(a, b, c);
    SumOfFive(h, s1, ch, k, w);
    SumIs(s0, maj);
    SafeAddIs(d, t1);
    SumIs(d, t1);
    SafeAddIs(t1, t2);
    SumIs(t1, t2);
  }

  lemma RoundFields(r: Registers, k: Word, w: Word)
    ensures var t1 := Add(Add(Add(r.h, BigSigma1(r.e)), Add(Ch(r.e, r.f, r.g), k)), w);
            && Round(r, k, w).e == Add(r.d, t1)
            && Round(r, k, w).a == Add(t1, Add(BigSigma0(r.a), Maj(r.a, r.b, r.c)))
  {
  }

  lemma SumOfFive(h: int, s1: int, ch: int, k: Word, w: int)
    ensures ToUint32(h + s1 + ch + k + w) ==
            Add(Add(Add(ToUint32(h), ToUint32(s1)), Add(ToUint32(ch), k)), ToUint32(w))
  {
    hide ToUint32, Add;
    WordIs(k);
    SumIs(h, s1);
    SumIs(ch, k);
    SumIs(h + s1, ch + k);
    SumIs(h + s1 + (ch + k), w);
  }

  lemma WordIs(k: Word)
    ensures ToUint32(k) == k
  {
  }

  // ---- Message words ----------------------------------------------------------------------------------

  /** b3 | (b2 << 8) | (b1 << 16) | (b0 << 24) */
  function JoinBytes(b0: Byte, b1: Byte, b2: Byte, b3: Byte): Number {
    JsOr(JsOr(JsOr(b3, JsShl(b2, 8)), JsShl(b1, 16)), JsShl(b0, 24))
  }

  lemma OrShifted(low: int, b: Byte, k: nat)
    requires k <= 24 && ToUint32(low) < Pow2(k)
    ensures ToUint32(JsOr(low, JsShl(b, k))) == ToUint32(low) + b * Pow2(k)
    ensures ToUint32(JsOr(low, JsShl(b, k))) < Pow2(k + 8)
  {
    hide *;
    ShiftedRange(ToUint32(low), b, k);
    ShlByte(b, k);
    OrIs(low, JsShl(b, k));
    OrParts32(ToUint32(low), b, k);
  }

  lemma ShiftedRange(low: nat, b: Byte, k: nat)
    requires k <= 24 && low < Pow2(k)
    ensures b < Pow2(32 - k) && 0 <= b * Pow2(k) < MODULUS && low + b * Pow2(k) < Pow2(k + 8)
  {
    hide Pow2;
    Pow32();
    PowersForBytes();
    Pow2Sum(k, 8);
    Pow2Sum(k, 32 - k);
    Pow2Sum(8, 24 - k);
    ShiftInRange(low, b, Pow2(k), Pow2(32 - k), Pow2(24 - k));
  }

  lemma ShlByte(b: Byte, k: nat)
    requires 0 <= b * Pow2(k) < MODULUS
    ensures ToUint32(JsShl(b, k)) == b * Pow2(k)
  {
    hide Pow2;
    WordIs(b);
    WordIs(b * Pow2(k));
  }

  lemma OrIs(x: int, y: int)
    ensures ToUint32(JsOr(x, y)) == Or(ToUint32(x), ToUint32(y))
  {
  }

  lemma OrParts32(low: Word, high: nat, k: nat)
    requires k <= 32 && low < Pow2(k) && high < Pow2(32 - k) && 0 <= high * Pow2(k) < MODULUS
    ensures Or(low, high * Pow2(k)) == low + high * Pow2(k)
  {
    OrOfParts(low, high, k, 32);
  }

  lemma PowersForBytes()
    ensures Pow2(8) == 256 && Pow2(24) == 0x100_0000
  {
    assert Pow2(4) == 16;
    Pow2Sum(4, 4);
    Pow2Sum(8, 16);
    Pow32();
  }

  lemma ShiftInRange(low: nat, b: Byte, p: nat, q: nat, r: nat)
    requires low < p && p * q == MODULUS && q == 256 * r && r > 0
    ensures b < q && 0 <= b * p <= low + b * p < p * 256 && b * p < MODULUS
  {
    MulNonNegative(b, p);
    MulNonNegative(255 - b, p);
    assert p * 256 == b * p + p + (255 - b) * p;
    assert p * q == (p * 256) * r;
    MulNonNegative(p * 256, r - 1);
    assert (p * 256) * r == p * 256 + (p * 256) * (r - 1);
  }

  lemma JoinBytesIs(b0: Byte, b1: Byte, b2: Byte, b3: Byte)
    ensures ToUint32(JoinBytes(b0, b1, b2, b3)) == b0 as int * 0x100_0000 + b1 as int * 0x1_0000 + b2 as int * 0x100 + b3 as int
    ensures -0x8000_0000 <= JoinBytes(b0, b1, b2, b3) < 0x8000_0000
  {
    hide JsShl, Or, ToUint32, Pow2;
    Pow32();
    PowersForBytes();
    WordIs(b3);
    OrShifted(b3, b2, 8);
    OrShifted(JsOr(b3, JsShl(b2, 8)), b1, 16);
    OrShifted(JsOr(JsOr(b3, JsShl(b2, 8)), JsShl(b1, 16)), b0, 24);
  }

  // ---- Magnitudes -------------------------------------------------------------------------------------

  const HALF := 0x8000_0000

  /** How large the unreduced schedule word of round t can be. */
  function WordBound(t: nat): int {
    if t < 16 then HALF
    else if t < 23 then 4 * HALF
    else if t < 30 then 10 * HALF
    else if t < 37 then 22 * HALF
    else if t < 44 then 46 * HALF
    else if t < 51 then 94 * HALF
    else if t < 58 then 190 * HALF
    else 382 * HALF
  }

  /** How large an intermediate hash value can be after `blocks` blocks. */
  function HashBound(blocks: nat): int {
    2 * HALF + blocks * HALF
  }

  /** Below this many blocks every sum stays below 2^53. */
  const MAX_BLOCKS := 0x40_0000 - 388

  // ---- The global state and its methods ---------------------------------------------------------------

  ghost function WordsOf(s: seq<Number>): (r: seq<Word>)
    ensures |r| == |s|
  {
    seq(|s|, i requires 0 <= i < |s| => ToUint32(s[i]))
  }

  /** After the schedule words up to `t` exclusive have been made, the window holds the last 16. */
  ghost predicate ScheduleWindow(w: seq<Number>, block: Block, t: nat) {
    |w| == 16 && t >= 16 &&
    forall j :: t - 16 <= j < t ==>
      ToUint32(w[j % 16]) == Schedule(block, j) && -WordBound(j) <= w[j % 16] <= WordBound(j)
  }

  lemma WindowStep(w: seq<Number>, block: Block, t: nat, r: Number)
    requires ScheduleWindow(w, block, t)
    requires ToUint32(r) == Schedule(block, t) && -WordBound(t) <= r <= WordBound(t)
    ensures ScheduleWindow(w[t % 16 := r], block, t + 1)
  {
    hide ToUint32, Schedule, WordBound;
  }

  /** The word made at round t - back, where sha256_expand looks for it. */
  lemma WindowAt(w: seq<Number>, block: Block, t: nat, back: nat)
    requires ScheduleWindow(w, block, t) && 1 <= back <= 16
    ensures var x := w[(t + 16 - back) % 16];
            ToUint32(x) == Schedule(block, t - back) && -WordBound(t - back) <= x <= WordBound(t - back)
  {
    hide ToUint32, Schedule, WordBound;
    assert (t + 16 - back) % 16 == (t - back) % 16;
  }

  lemma ScheduleFrom(block: Block, t: nat)
    requires t >= 16
    ensures Schedule(block, t) ==
            Add(Add(SmallSigma1(Schedule(block, t - 2)), Schedule(block, t - 7)),
                Add(SmallSigma0(Schedule(block, t - 15)), Schedule(block, t - 16)))
  {
    hide Add, SmallSigma0, SmallSigma1;
  }

  /** The bounds leave room for one more word. */
  lemma BoundsGrow(t: nat)
    requires 16 <= t < 64
    ensures WordBound(t - 7) + WordBound(t - 16) + 2 * HALF <= WordBound(t) <= 382 * HALF
    ensures 0 < WordBound(t - 7) <= WordBound(t) && 0 < WordBound(t - 16) <= WordBound(t)
  {
  }

  /** sha256_expand, for round j >= 16. */
  method Expand(w: array<Number>, j: nat, ghost block: Block) returns (r: Number)
    requires 16 <= j < 64 && w.Length == 16 && ScheduleWindow(w[..], block, j)
    modifies w
    ensures ScheduleWindow(w[..], block, j + 1)
    ensures ToUint32(r) == Schedule(block, j) && -WordBound(j) <= r <= WordBound(j)
  {
    hide *;
    ghost var before := w[..];
    WindowAt(before, block, j, 2);
    WindowAt(before, block, j, 7);
    WindowAt(before, block, j, 15);
    WindowAt(before, block, j, 16);
    BoundsGrow(j);
    var w14, w9, w1, w0 := w[(j + 14) % 16], w[(j + 9) % 16], w[(j + 1) % 16], w[j % 16];
    assert (j + 16 - 16) % 16 == j % 16 && w0 == before[(j + 16 - 16) % 16];
    NewWord(w14, w9, w1, w0, block, j);
    SigmaRange(w14);
    SigmaRange(w1);
    assert HALF == 0x8000_0000 by { HalfIs(); }
    var sum: Number := JsSmallSigma1(w14) + w9;
    sum := sum + JsSmallSigma0(w1);
    r := w0 + sum;
    WindowStep(before, block, j, r);
    w[j % 16] := r;
    assert w[..] == before[j % 16 := r];
  }

  lemma HalfIs()
    ensures HALF == 0x8000_0000
  {
  }

  lemma NewWord(w14: int, w9: int, w1: int, w0: int, block: Block, t: nat)
    requires t >= 16
    requires ToUint32(w14) == Schedule(block, t - 2) && ToUint32(w9) == Schedule(block, t - 7)
    requires ToUint32(w1) == Schedule(block, t - 15) && ToUint32(w0) == Schedule(block, t - 16)
    ensures ToUint32(w0 + (JsSmallSigma1(w14) + w9 + JsSmallSigma0(w1))) == Schedule(block, t)
  {
    hide *;
    SigmasAre(w14);
    SigmasAre(w1);
    ScheduleFrom(block, t);
    ScheduleSum(JsSmallSigma1(w14), w9, JsSmallSigma0(w1), w0);
  }

  lemma SigmaRange(x: int)
    ensures -HALF <= JsSmallSigma0(x) < HALF && -HALF <= JsSmallSigma1(x) < HALF
    ensures -HALF <= JsBigSigma0(x) < HALF && -HALF <= JsBigSigma1(x) < HALF
  {
    hide JsRotateRight, JsShr, Xor;
  }

  lemma ScheduleSum(s1: int, w7: int, s0: int, w16: int)
    ensures ToUint32(w16 + (s1 + w7 + s0)) ==
            Add(Add(ToUint32(s1), ToUint32(w7)), Add(ToUint32(s0), ToUint32(w16)))
  {
    hide ToUint32, Add;
    SumIs(s1, w7);
    SumIs(s0, w16);
    SumIs(s1 + w7, s0 + w16);
  }

  /** The registers of the loop stand for the registers after `t` rounds. */
  ghost predicate RegistersAre(r: Registers, a: Number, b: Number, c: Number, d: Number,
                               e: Number, f: Number, g: Number, h: Number) {
    && ToUint32(a) == r.a && ToUint32(b) == r.b && ToUint32(c) == r.c && ToUint32(d) == r.d
    && ToUint32(e) == r.e && ToUint32(f) == r.f && ToUint32(g) == r.g && ToUint32(h) == r.h
  }

  ghost predicate Within(x: int, bound: int) {
    -bound <= x <= bound
  }

  lemma RoundAgain(r: Registers, a: Number, b: Number, c: Number, d: Number,
                   e: Number, f: Number, g: Number, h: Number, k: Word, w: int, t1: Number, t2: Number)
    requires RegistersAre(r, a, b, c, d, e, f, g, h)
    requires t1 == h + JsBigSigma1(e) + Choice(e, f, g) + k + w
    requires t2 == JsBigSigma0(a) + Majority(a, b, c)
    ensures RegistersAre(Round(r, k, ToUint32(w)), SafeAdd(t1, t2), a, b, c, SafeAdd(d, t1), e, f, g)
    ensures Within(SafeAdd(t1, t2), HALF) && Within(SafeAdd(d, t1), HALF)
  {
    hide ToUint32, Add, JsBigSigma0, JsBigSigma1, BigSigma0, BigSigma1, Ch, Maj, Choice, Majority, SafeAdd;
    RoundIs(a, b, c, d, e, f, g, h, k, w, r);
    SafeAddIs(t1, t2);
    SafeAddIs(d, t1);
  }

  lemma HelperRange(x: int, y: int, z: int)
    ensures -HALF <= Choice(x, y, z) < HALF && -HALF <= Majority(x, y, z) < HALF
  {
    hide JsAnd, JsNot, Xor;
  }

  // ---- Padding ----------------------------------------------------------------------------------------

  lemma PowersOfTwo()
    ensures Pow2(3) == 8 && Pow2(6) == 64 && Pow2(8) == 0x100 && Pow2(16) == 0x1_0000 && Pow2(24) == 0x100_0000
    ensures Pow2(29) == 0x2000_0000
  {
    PowersForBytes();
    Pow32();
    assert Pow2(6) == 64;
    Pow2Sum(5, 24);
    assert Pow2(5) == 32;
  }

  /** Below 2^28 bytes the bit count of a message is an exact left shift. */
  lemma BitCount(n: nat)
    requires n < 0x1000_0000
    ensures JsShl(n, 3) == 8 * n && JsSar(n, 29) == 0
  {
    hide Pow2;
    PowersOfTwo();
  }

  /** (x >>> n) & 0xff */
  function JsByte(x: int, n: nat): Byte {
    ByteMask(JsShr(x, n)); JsAnd(JsShr(x, n), 0xff)
  }

  lemma ByteMask(x: Word)
    ensures JsAnd(x, 0xff) == x % 256 && JsAnd(x, 0x3f) == x % 64 && JsAnd(x, 0xf) == x % 16
  {
    hide Combine, Pow2;
    PowersOfTwo();
    assert Pow2(4) == 16 by { Pow16(); }
    AndMask(x, 8, 32);
    AndMask(x, 6, 32);
    AndMask(x, 4, 32);
  }

  lemma Pow16()
    ensures Pow2(4) == 16 && Pow2(0) == 1
  {
  }

  lemma JsByteIs(n: Word)
    ensures JsByte(n, 24) == (n / 0x100_0000) % 256 && JsByte(n, 16) == (n / 0x1_0000) % 256
    ensures JsByte(n, 8) == (n / 0x100) % 256 && JsByte(n, 0) == n % 256
  {
    hide Pow2, JsAnd;
    PowersOfTwo();
    Pow16();
    ByteMask(JsShr(n, 24));
    ByteMask(JsShr(n, 16));
    ByteMask(JsShr(n, 8));
    ByteMask(JsShr(n, 0));
  }

  lemma BigEndianOf(n: Word)
    ensures BigEndian(n, 8) == [0, 0, 0, 0, JsByte(n, 24), JsByte(n, 16), JsByte(n, 8), JsByte(n, 0)]
  {
    hide JsByte;
    JsByteIs(n);
    var n1, n2, n3 := n / 256, n / 0x1_0000, n / 0x100_0000;
    BigEndianZero(4);
    assert BigEndian(n3, 5) == BigEndian(0, 4) + [n3 % 256];
    assert BigEndian(n2, 6) == BigEndian(n3, 5) + [n2 % 256];
    assert BigEndian(n1, 7) == BigEndian(n2, 6) + [n1 % 256];
    assert BigEndian(n, 8) == BigEndian(n1, 7) + [n % 256];
  }

  lemma {:induction false} BigEndianZero(count: nat)
    ensures BigEndian(0, count) == seq(count, _ => 0)
  {
    if count > 0 { BigEndianZero(count - 1); }
  }

  class Hasher {
    const ihash: array<Number>
    const count: array<int>
    const buffer: array<Byte>

    ghost var hashed: seq<Byte>  // the blocks given to sha256_transform, one after the other

    ghost predicate Valid() {
      ihash.Length == 8 && count.Length == 2 && buffer.Length == 64
      && ihash as object != count && ihash as object != buffer && count as object != buffer
    }

    /** The intermediate hash value that the accumulators stand for. */
    ghost function Hash(): Digest
      requires Valid()
      reads ihash
    {
      WordsOf(ihash[..])
    }

    ghost predicate Consistent()
      requires Valid()
      reads this, ihash
    {
      Hash() == HashBlocks(H0, hashed)
    }

    ghost predicate Bounded(blocks: nat)
      requires Valid()
      reads ihash
    {
      forall i :: 0 <= i < 8 ==> Within(ihash[i], HashBound(blocks))
    }

    /** sha256_init. */
    constructor ()
      ensures Valid() && fresh(ihash) && fresh(count) && fresh(buffer)
      ensures Hash() == H0 && hashed == [] && Consistent() && Bounded(0) && count[0] == count[1] == 0
    {
      ihash := new Number[8](i requires 0 <= i < 8 => H0[i]);
      count := new int[2](_ => 0);
      buffer := new Byte[64](_ => 0);
      hashed := [];
      new;
      assert ihash[..] == H0;
    }

    lemma ConsistentMeans(data: seq<Byte>)
      requires Valid() && Consistent() && hashed == Fips180.Padded(data)
      ensures Hash() == Sha256(data)
    {
      hide HashBlocks;
    }

    /** The 16 message words of the block in the buffer. */
    method MakeWords() returns (w: array<Number>)
      requires Valid()
      ensures fresh(w) && w.Length == 16 && ScheduleWindow(w[..], buffer[..], 16)
    {
      hide JoinBytes, WordAt, ToUint32, Within, ScheduleWindow;
      w := new Number[16];
      for i := 0 to 16
        invariant forall j :: 0 <= j < i ==> ToUint32(w[j]) == WordAt(buffer[..], j) && Within(w[j], HALF)
      {
        JoinWord(buffer[..], i);
        w[i] := JoinBytes(buffer[4 * i], buffer[4 * i + 1], buffer[4 * i + 2], buffer[4 * i + 3]);
      }
      FirstWindow(w[..], buffer[..]);
    }

    lemma Unfold(blocks: nat)
      requires Valid() && Bounded(blocks)
      ensures ihash.Length == 8 && buffer.Length == 64 && Hash() == WordsOf(ihash[..])
      ensures forall i :: 0 <= i < 8 ==> Within(ihash[i], HashBound(blocks))
    {
    }

    /** The loop of sha256_transform: 64 rounds on the registers a to h. */
    method RunRounds(ghost blocks: nat) returns (a: Number, b: Number, c: Number, d: Number,
                                                 e: Number, f: Number, g: Number, h: Number)
      requires Valid() && Bounded(blocks) && blocks < MAX_BLOCKS
      ensures RegistersAre(Rounds(Load(Hash()), buffer[..], 64), a, b, c, d, e, f, g, h)
      ensures InRange(HashBound(blocks), 64, a, b, c, d, e, f, g, h)
    {
      hide *;
      ghost var block, start := buffer[..], Load(Hash());
      Unfold(blocks);
      a, b, c, d := ihash[0], ihash[1], ihash[2], ihash[3];
      e, f, g, h := ihash[4], ihash[5], ihash[6], ihash[7];
      LoadIs(ihash[..]);
      RangeStart(HashBound(blocks), a, b, c, d, e, f, g, h);
      var w := MakeWords();
      RoundsNone(start, block);
      for j := 0 to 64
        invariant RegistersAre(Rounds(start, block, j), a, b, c, d, e, f, g, h)
        invariant w.Length == 16 && ScheduleWindow(w[..], block, if j < 16 then 16 else j)
        invariant InRange(HashBound(blocks), j, a, b, c, d, e, f, g, h)
      {
        KLength();
        var x: Number;
        if j < 16 {
          WindowFirst(w[..], block, j);
          x := w[j];
        } else {
          BoundsGrow(j);
          x := Expand(w, j, block);
          WithinLoose(x, WordBound(j), 382 * HALF);
        }
        RangeLoose(blocks, j, a, b, c, d, e, f, g, h);
        var t1, t2 := Temporaries(a, b, c, e, f, g, h, K[j], x, blocks);
        RoundAgain(Rounds(start, block, j), a, b, c, d, e, f, g, h, K[j], x, t1, t2);
        RoundsNext(start, block, j);
        RangeNext(HashBound(blocks), j, a, b, c, d, e, f, g, h, SafeAdd(t1, t2), SafeAdd(d, t1));
        h, g, f := g, f, e;
        e := SafeAdd(d, t1);
        d, c, b := c, b, a;
        a := SafeAdd(t1, t2);
      }
    }

    /** sha256_transform: one block. The accumulators grow by less than one signed word. */
    method Transform(ghost blocks: nat)
      requires Valid() && Bounded(blocks) && blocks < MAX_BLOCKS && Consistent()
      modifies ihash, `hashed
      ensures Hash() == Compress(old(Hash()), buffer[..]) && Bounded(blocks + 1)
      ensures hashed == old(hashed) + buffer[..] && Consistent()
    {
      hide ToUint32, Rounds, Add, HashBlocks, Compress;
      ghost var before := ihash[..];
      BlockMore(H0, hashed, buffer[..]);
      hashed := hashed + buffer[..];
      var a, b, c, d, e, f, g, h := RunRounds(blocks);
      ihash[0] := ihash[0] + a;
      ihash[1] := ihash[1] + b;
      ihash[2] := ihash[2] + c;
      ihash[3] := ihash[3] + d;
      ihash[4] := ihash[4] + e;
      ihash[5] := ihash[5] + f;
      ihash[6] := ihash[6] + g;
      ihash[7] := ihash[7] + h;
      CompressIs(before, ihash[..], a, b, c, d, e, f, g, h, Rounds(Load(WordsOf(before)), buffer[..], 64), buffer[..]);
    }

    /** The buffer as one copy loop of sha256_update leaves it. */
    method FillBlock(data: seq<Byte>, curpos: nat, from: nat, to: nat)
      requires Valid() && from <= to <= 64 && curpos + (to - from) <= |data|
      modifies buffer
      ensures buffer[from..to] == data[curpos..curpos + (to - from)]
      ensures buffer[..from] == old(buffer[..from]) && buffer[to..] == old(buffer[to..])
    {
      for j := from to to
        invariant forall k :: from <= k < j ==> buffer[k] == data[curpos + (k - from)]
        invariant forall k :: 0 <= k < from || j <= k < 64 ==> buffer[k] == old(buffer[k])
      {
        buffer[j] := data[curpos + (j - from)];
      }
      assert forall k {:trigger buffer[from..to][k]} :: 0 <= k < to - from ==> buffer[from..to][k] == buffer[from + k];
    }

    method ZeroFill(from: nat, to: nat)
      requires Valid() && from <= to <= 64
      modifies buffer
      ensures buffer[from..to] == seq(to - from, _ => 0)
      ensures buffer[..from] == old(buffer[..from]) && buffer[to..] == old(buffer[to..])
    {
      for i := from to to
        invariant forall k :: from <= k < i ==> buffer[k] == 0
        invariant forall k :: 0 <= k < from || i <= k < 64 ==> buffer[k] == old(buffer[k])
      {
        buffer[i] := 0;
      }
    }

    /** The bit count in two numbers, of which the second is the carry. */
    method CountBits(inputLen: nat)
      requires Valid() && inputLen < 0x1000_0000 && count[0] == count[1] == 0
      modifies count
      ensures count[0] == 8 * inputLen && count[1] == 0
    {
      hide JsShl, JsSar;
      BitCount(inputLen);
      count[0] := count[0] + JsShl(inputLen, 3);
      count[1] := count[1] + if count[0] < JsShl(inputLen, 3) then 1 else 0;
      count[1] := count[1] + JsSar(inputLen, 29);
    }

    /** sha256_update as the one call after sha256_init: whole blocks are hashed, the rest is buffered. */
    method Update(data: seq<Byte>)
      requires Valid() && |data| < MAX_LENGTH && count[0] == count[1] == 0 && Bounded(0)
      requires Consistent() && hashed == []
      modifies ihash, count, buffer, `hashed
      ensures Consistent() && hashed == data[..|data| / 64 * 64] && buffer[..|data| % 64] == data[|data| / 64 * 64..]
      ensures count[0] == 8 * |data| && count[1] == 0 && Bounded(|data| / 64)
    {
      hide Consistent, Compress, JsSar, JsAnd, Bounded;
      var curpos, inputLen := 0, |data|;
      BufferIndex(0, count[0]);
      var index := JsAnd(JsSar(count[0], 3), 0x3f);
      ByteMask(inputLen);
      var remainder := JsAnd(inputLen, 0x3f);
      CountBits(inputLen);
      var i := 0;
      while i + 63 < inputLen
        invariant 0 <= i <= inputLen && i % 64 == 0 && curpos == i && index == 0
        invariant Consistent() && hashed == data[..i] && Bounded(i / 64)
        invariant count[0] == 8 * inputLen && count[1] == 0
      {
        HashBlock(data, curpos, index);
        curpos := curpos + (64 - index);
        index := 0;
        i := i + 64;
      }
      LastBlock(inputLen, i);
      FillBlock(data, curpos, 0, remainder);
      assert data[i..i + remainder] == data[i..];
    }

    /** Copy the next 64 bytes into the empty buffer and hash them. */
    method HashBlock(data: seq<Byte>, i: nat, index: nat)
      requires Valid() && index == 0 && i % 64 == 0 && i + 64 <= |data| < MAX_LENGTH
      requires Consistent() && hashed == data[..i] && Bounded(i / 64)
      modifies ihash, buffer, `hashed
      ensures Consistent() && hashed == data[..i + 64] && Bounded((i + 64) / 64)
    {
      hide Compress, Hash, Bounded, HashBlocks;
      FillBlock(data, i, index, 64);
      assert buffer[..] == data[i..i + 64];
      Transform(i / 64);
    }

    method WriteLength(ghost length: nat)
      requires Valid() && length < 0x1000_0000 && count[0] == 8 * length && count[1] == 0
      modifies buffer
      ensures buffer[56..] == BigEndian(8 * length, 8) && buffer[..56] == old(buffer[..56])
    {
      hide JsByte;
      BigEndianOf(8 * length);
      ZeroByteOf(count[1]);
      buffer[56] := JsByte(count[1], 24);
      buffer[57] := JsByte(count[1], 16);
      buffer[58] := JsByte(count[1], 8);
      buffer[59] := JsByte(count[1], 0);
      buffer[60] := JsByte(count[0], 24);
      buffer[61] := JsByte(count[0], 16);
      buffer[62] := JsByte(count[0], 8);
      buffer[63] := JsByte(count[0], 0);
    }

    /** sha256_final: 0x80, zeros and the bit count; an extra block when they do not fit. */
    method Final(ghost length: nat)
      requires Valid() && length < MAX_LENGTH
      requires count[0] == 8 * length && count[1] == 0 && Bounded(length / 64) && Consistent()
      modifies ihash, buffer, `hashed
      ensures Consistent() && hashed == old(hashed) + (old(buffer[..length % 64]) + Padding(length))
    {
      hide Compress, JsSar, JsAnd, Hash, Bounded, HashBlocks, BigEndian, Padding, Consistent;
      ghost var tail := buffer[..length % 64];
      BufferIndex(length, count[0]);
      var index := JsAnd(JsSar(count[0], 3), 0x3f);
      buffer[index] := 0x80;
      index := index + 1;
      assert buffer[..index] == tail + [0x80];
      if index <= 56 {
        ZeroFill(index, 56);
        assert buffer[..56] == tail + [0x80] + seq(56 - index, _ => 0);
        WriteLength(length);
        OneBlock(tail, buffer[..], length);
        Transform(length / 64);
      } else {
        ZeroFill(index, 64);
        ghost var first: Block := buffer[..];
        assert first == tail + [0x80] + seq(64 - index, _ => 0);
        Transform(length / 64);
        ZeroFill(0, 56);
        WriteLength(length);
        TwoBlocks(tail, first, buffer[..], length);
        Transform(length / 64 + 1);
      }
    }

    /** The inner loop of sha256_encode_hex: eight digits of one accumulator. */
    method EncodeWord(x: Number, base: string) returns (output: string)
      ensures output == base + Hex(ToUint32(x), 8)
    {
      hide *;
      output := base;
      ghost var u := ToUint32(x);
      TopEnds(u);
      HexDigitsLength();
      var j := 28;
      while j >= 0
        invariant -4 <= j <= 28 && j % 4 == 0
        invariant output == base + TopDigits(u, 7 - j / 4)
        decreases j
      {
        NibbleOf(x, j / 4);
        NextDigit(u, j / 4);
        output := output + [HEX_DIGITS[JsAnd(JsShr(x, j), 0x0f)]];
        j := j - 4;
      }
    }

    /** sha256_encode_hex. */
    method EncodeHex() returns (output: string)
      requires Valid()
      ensures output == HexDigest(Hash())
    {
      hide Hex, ToUint32;
      output := "";
      for i := 0 to 8
        invariant output == HexDigest(Hash()[..i])
      {
        output := EncodeWord(ihash[i], output);
        assert Hash()[..i + 1][..i] == Hash()[..i];
      }
      assert Hash()[..8] == Hash();
    }
  }

  lemma LastBlock(n: nat, i: nat)
    requires i % 64 == 0 && i <= n < i + 64
    ensures i == n / 64 * 64 && i / 64 == n / 64 && n - i == n % 64
  {
  }

  lemma HexDigitsLength()
    ensures |HEX_DIGITS| == 16
  {
  }

  function Sixteens(n: nat): (r: nat)
    ensures r >= 1
  {
    if n == 0 then 1 else 16 * Sixteens(n - 1)
  }

  lemma {:induction false} SixteensIs(n: nat)
    ensures Sixteens(n) == Pow2(4 * n)
  {
    if n > 0 {
      SixteensIs(n - 1);
      Pow2Sum(4, 4 * (n - 1));
      Pow16();
    }
  }

  /** The first `m` of the eight digits of a word. */
  ghost function TopDigits(u: Word, m: int): string {
    if 0 <= m <= 8 then
      QuotientBounds(u, Sixteens(8 - m));
      Hex(u / Sixteens(8 - m), m)
    else ""
  }

  /** Digit k of a word, counted from the right. */
  ghost function Nibble(u: Word, k: nat): (r: nat)
    ensures r < 16
  {
    (u / Sixteens(k)) % 16
  }

  lemma TopEnds(u: Word)
    ensures TopDigits(u, 0) == "" && TopDigits(u, 8) == Hex(u, 8)
  {
  }

  /** One more hexadecimal digit. */
  lemma NextDigit(u: Word, k: nat)
    requires k <= 7
    ensures |HEX_DIGITS| == 16 && TopDigits(u, 8 - k) == TopDigits(u, 7 - k) + [HEX_DIGITS[Nibble(u, k)]]
  {
    var p := Sixteens(k);
    QuotientBounds(u, p);
    QuotientBounds(u, 16 * p);
    QuotientTwice(u, p);
  }

  lemma QuotientTwice(u: nat, p: nat)
    requires p > 0
    ensures (u / p) / 16 == u / (16 * p)
  {
    var q, r := u / p, u % p;
    var q', r' := q / 16, q % 16;
    assert u == p * q + r && q == 16 * q' + r';
    assert p * q == (16 * p) * q' + p * r';
    MulNonNegative(p, r');
    MulNonNegative(p, 15 - r');
    assert p * 16 == p * r' + p + p * (15 - r');
    QuotientUnique(u, 16 * p, q', p * r' + r);
  }

  lemma NibbleOf(x: int, k: nat)
    requires k <= 7
    ensures JsAnd(JsShr(x, 4 * k), 0x0f) == Nibble(ToUint32(x), k)
  {
    hide JsAnd, Pow2, Sixteens;
    SixteensIs(k);
    ByteMask(JsShr(x, 4 * k));
  }

  /** sha256_digest. `blocks` is what sha256_transform was given, one buffer after the other. */
  method Digest256(data: seq<Byte>) returns (hex: string, ghost blocks: seq<Byte>)
    requires |data| < MAX_LENGTH
    ensures hex == HexDigest(Sha256(data))
    ensures blocks == Fips180.Padded(data)
  {
    hide *;
    var state := new Hasher();
    state.Update(data);
    state.Final(|data|);
    PaddedSplits(data, |data| / 64 * 64);
    state.ConsistentMeans(data);
    blocks := state.hashed;
    hex := state.EncodeHex();
  }

  lemma PaddedSplits(data: seq<Byte>, n: nat)
    requires n <= |data| && n % 64 == 0
    ensures Fips180.Padded(data) == data[..n] + (data[n..] + Padding(|data|))
    ensures |data[n..] + Padding(|data|)| % 64 == 0
  {
    hide BigEndian, ZeroBytes;
    assert data == data[..n] + data[n..];
    PaddedLength(|data|);
    assert |data[n..] + Padding(|data|)| == |data| + 1 + ZeroBytes(|data|) + 8 - n;
  }

  lemma BlockMore(h: Digest, bytes: seq<Byte>, block: Block)
    ensures HashBlocks(h, bytes + block) == Compress(HashBlocks(h, bytes), block)
  {
    hide Compress;
    var all := bytes + block;
    assert all[..|all| - 64] == bytes && all[|all| - 64..] == block;
  }

  lemma OneBlock(tail: seq<Byte>, block: Block, length: nat)
    requires |tail| == length % 64 <= 55
    requires block[..56] == tail + [0x80] + seq(55 - |tail|, _ => 0) && block[56..] == BigEndian(8 * length, 8)
    ensures tail + Padding(length) == block
  {
    hide BigEndian;
    assert ZeroBytes(length) == 55 - |tail|;
    assert block == block[..56] + block[56..];
  }

  lemma TwoBlocks(tail: seq<Byte>, first: Block, second: Block, length: nat)
    requires |tail| == length % 64 >= 56
    requires first == tail + [0x80] + seq(63 - |tail|, _ => 0)
    requires second[..56] == seq(56, _ => 0) && second[56..] == BigEndian(8 * length, 8)
    ensures tail + Padding(length) == first + second
  {
    hide BigEndian;
    assert ZeroBytes(length) == 119 - |tail|;
    assert second == second[..56] + second[56..];
  }

  /** Everything after the message in the padded message. */
  ghost function Padding(length: nat): seq<Byte> {
    [0x80] + seq(ZeroBytes(length), _ => 0) + BigEndian(8 * length, 8)
  }

  lemma BufferIndex(n: nat, count: int)
    requires n < MAX_LENGTH && count == 8 * n
    ensures JsAnd(JsSar(count, 3), 0x3f) == n % 64
  {
    hide Pow2, JsAnd;
    PowersOfTwo();
    ByteMask(n);
  }

  lemma ZeroByteOf(n: Word)
    requires n == 0
    ensures JsByte(n, 24) == JsByte(n, 16) == JsByte(n, 8) == JsByte(n, 0) == 0
  {
    hide JsByte;
    JsByteIs(n);
  }

  const MAX_LENGTH := 64 * (MAX_BLOCKS - 1)

  lemma CompressIs(before: seq<Number>, after: seq<Number>, a: Number, b: Number, c: Number, d: Number,
                   e: Number, f: Number, g: Number, h: Number, r: Registers, block: Block)
    requires |before| == |after| == 8 && r == Rounds(Load(WordsOf(before)), block, 64)
    requires RegistersAre(r, a, b, c, d, e, f, g, h)
    requires after[0] == before[0] + a && after[1] == before[1] + b && after[2] == before[2] + c && after[3] == before[3] + d
    requires after[4] == before[4] + e && after[5] == before[5] + f && after[6] == before[6] + g && after[7] == before[7] + h
    ensures WordsOf(after) == Compress(WordsOf(before), block)
  {
    hide ToUint32, Add, Rounds;
    SumIs(a, before[0]);
    SumIs(b, before[1]);
    SumIs(c, before[2]);
    SumIs(d, before[3]);
    SumIs(e, before[4]);
    SumIs(f, before[5]);
    SumIs(g, before[6]);
    SumIs(h, before[7]);
  }

  /** A register that a round has computed is a signed word; the others are still unreduced. */
  ghost predicate InRange(bound: int, j: nat, a: Number, b: Number, c: Number, d: Number,
                          e: Number, f: Number, g: Number, h: Number) {
    && Within(a, if j < 1 then bound else HALF) && Within(e, if j < 1 then bound else HALF)
    && Within(b, if j < 2 then bound else HALF) && Within(f, if j < 2 then bound else HALF)
    && Within(c, if j < 3 then bound else HALF) && Within(g, if j < 3 then bound else HALF)
    && Within(d, if j < 4 then bound else HALF) && Within(h, if j < 4 then bound else HALF)
  }

  lemma RangeStart(bound: int, a: Number, b: Number, c: Number, d: Number, e: Number, f: Number, g: Number, h: Number)
    requires Within(a, bound) && Within(b, bound) && Within(c, bound) && Within(d, bound)
    requires Within(e, bound) && Within(f, bound) && Within(g, bound) && Within(h, bound)
    ensures InRange(bound, 0, a, b, c, d, e, f, g, h)
  {
  }

  lemma RangeNext(bound: int, j: nat, a: Number, b: Number, c: Number, d: Number,
                  e: Number, f: Number, g: Number, h: Number, a': Number, e': Number)
    requires InRange(bound, j, a, b, c, d, e, f, g, h) && Within(a', HALF) && Within(e', HALF)
    ensures InRange(bound, j + 1, a', a, b, c, e', e, f, g)
  {
  }

  lemma RangeLoose(blocks: nat, j: nat, a: Number, b: Number, c: Number, d: Number,
                   e: Number, f: Number, g: Number, h: Number)
    requires InRange(HashBound(blocks), j, a, b, c, d, e, f, g, h)
    ensures Within(h, HashBound(blocks))
  {
  }

  lemma WithinLoose(x: int, bound: int, more: int)
    requires -bound <= x <= bound <= more
    ensures Within(x, more)
  {
  }

  /** T1 and T2 of one round; every partial sum is exact. */
  method Temporaries(a: Number, b: Number, c: Number, e: Number, f: Number, g: Number, h: Number,
                     k: Word, w: Number, ghost blocks: nat) returns (t1: Number, t2: Number)
    requires Within(h, HashBound(blocks)) && blocks < MAX_BLOCKS && Within(w, 382 * HALF)
    ensures t1 == h + JsBigSigma1(e) + Choice(e, f, g) + k + w
    ensures t2 == JsBigSigma0(a) + Majority(a, b, c)
  {
    hide JsBigSigma0, JsBigSigma1, Choice, Majority;
    SigmaRange(e);
    SigmaRange(a);
    HelperRange(e, f, g);
    HelperRange(a, b, c);
    t1 := h + JsBigSigma1(e);
    t1 := t1 + Choice(e, f, g);
    t1 := t1 + k;
    t1 := t1 + w;
    t2 := JsBigSigma0(a);
    t2 := t2 + Majority(a, b, c);
  }

  lemma JoinWord(block: Block, i: nat)
    requires i < 16
    ensures var x := JoinBytes(block[4 * i], block[4 * i + 1], block[4 * i + 2], block[4 * i + 3]);
            ToUint32(x) == WordAt(block, i) && Within(x, HALF)
  {
    JoinBytesIs(block[4 * i], block[4 * i + 1], block[4 * i + 2], block[4 * i + 3]);
  }

  lemma FirstWindow(w: seq<Number>, block: Block)
    requires |w| == 16 && forall j :: 0 <= j < 16 ==> ToUint32(w[j]) == WordAt(block, j) && Within(w[j], HALF)
    ensures ScheduleWindow(w, block, 16)
  {
    hide WordAt, ToUint32;
  }

  lemma WindowFirst(w: seq<Number>, block: Block, j: nat)
    requires ScheduleWindow(w, block, 16) && j < 16
    ensures ToUint32(w[j]) == Schedule(block, j) && Within(w[j], 382 * HALF)
  {
    hide ToUint32, Schedule;
    assert j % 16 == j;
  }

  lemma LoadIs(s: seq<Number>)
    requires |s| == 8
    ensures RegistersAre(Load(WordsOf(s)), s[0], s[1], s[2], s[3], s[4], s[5], s[6], s[7])
  {
    hide ToUint32;
  }

  lemma RoundsNone(start: Registers, block: Block)
    ensures Rounds(start, block, 0) == start
  {
  }

  lemma RoundsNext(start: Registers, block: Block, j: nat)
    requires j < 64
    ensures |K| == 64 && Rounds(start, block, j + 1) == Round(Rounds(start, block, j), K[j], Schedule(block, j))
  {
    hide Round, Schedule, K;
    KLength();
  }
}
