/** 32-bit words and the JavaScript operators on numbers that hold integers. */
module Words {
  import opened Bits

  const MODULUS := 0x1_0000_0000

  type Word = n: nat | n < 0x1_0000_0000

  /** The integers that a double represents exactly. */
  type Number = x: int | -0x20_0000_0000_0000 < x < 0x20_0000_0000_0000

  // ---- Bitwise combination of the low n bits ------------------------------------------------

  predicate Both(a: bool, b: bool) { a && b }
  predicate Either(a: bool, b: bool) { a || b }
  predicate Differ(a: bool, b: bool) { a != b }

  function Combine(op: (bool, bool) -> bool, x: nat, y: nat, n: nat): (r: nat)
    ensures r < Pow2(n)
  {
    if n == 0 then 0
    else BitValue(op(x % 2 == 1, y % 2 == 1)) + 2 * Combine(op, x / 2, y / 2, n - 1)
  }

  /** Each bit of the result comes from the two bits at its place. */
  lemma {:induction false} CombineBit(op: (bool, bool) -> bool, x: nat, y: nat, n: nat, k: nat)
    requires k < n
    ensures Bit(Combine(op, x, y, n), k) == op(Bit(x, k), Bit(y, k))
    decreases n
  {
    var rest := Combine(op, x / 2, y / 2, n - 1);
    assert Combine(op, x, y, n) / 2 == rest;
    if k > 0 { CombineBit(op, x / 2, y / 2, n - 1, k - 1); }
  }

  lemma Pow32()
    ensures Pow2(16) == 65536 && Pow2(32) == MODULUS
  {
    assert Pow2(4) == 16;
    assert Pow2(8) == 16 * Pow2(4);
    assert Pow2(12) == 16 * Pow2(8);
    assert Pow2(16) == 16 * Pow2(12);
    assert Pow2(20) == 16 * Pow2(16);
    assert Pow2(24) == 16 * Pow2(20);
    assert Pow2(28) == 16 * Pow2(24);
    assert Pow2(32) == 16 * Pow2(28);
  }

  function And(x: Word, y: Word): Word {
    Pow32(); Combine(Both, x, y, 32)
  }

  function Or(x: Word, y: Word): Word {
    Pow32(); Combine(Either, x, y, 32)
  }

  function Xor(x: Word, y: Word): Word {
    Pow32(); Combine(Differ, x, y, 32)
  }

  function Not(x: Word): Word {
    MODULUS - 1 - x
  }

  function ShiftRight(x: Word, n: nat): Word {
    QuotientBounds(x, Pow2(n));
    x / Pow2(n)
  }

  lemma QuotientBounds(x: nat, m: nat)
    requires m > 0
    ensures 0 <= x / m <= x
  {
    var q := x / m;
    assert x == m * q + x % m;
    if q > 0 { assert m * q == q + (m - 1) * q; MulNonNegative(m - 1, q); }
  }

  /** ROTR of FIPS 180-4 section 3.2: the low n bits move to the top. */
  function RotateRight(n: nat, x: Word): (r: Word)
    requires n <= 32
  {
    RotateInRange(n, x);
    ShiftRight(x, n) + (x % Pow2(n)) * Pow2(32 - n)
  }

  lemma {:induction false} Pow2Sum(m: nat, n: nat)
    ensures Pow2(m + n) == Pow2(m) * Pow2(n)
  {
    hide *;
    Pow2Twice(m);
    Pow2Twice(m + n);
    if m == 0 {
      assert 1 * Pow2(n) == Pow2(n);
    } else {
      Pow2Sum(m - 1, n);
      DoubleProduct(Pow2(m - 1), Pow2(n));
    }
  }

  lemma DoubleProduct(p: nat, q: nat)
    ensures (2 * p) * q == 2 * (p * q) == p * (2 * q)
  {
  }

  /** A value below p * q splits into quotient below q and remainder below p. */
  lemma SplitBounds(x: nat, p: nat, q: nat)
    requires p > 0 && x < p * q
    ensures 0 <= x / p < q && x % p < p
  {
    QuotientBounds(x, p);
    var d := x / p;
    assert x == p * d + x % p;
  }

  lemma RotateBound(x: nat, p: nat, q: nat)
    requires p > 0 && q > 0 && x < p * q
    ensures 0 <= x / p < q && 0 <= x / p + (x % p) * q < p * q
  {
    SplitBounds(x, p, q);
    var r := x % p;
    MulNonNegative(p - 1 - r, q);
    MulNonNegative(r, q);
    assert p * q == r * q + q + (p - 1 - r) * q;
  }

  lemma RotateInRange(n: nat, x: Word)
    requires n <= 32
    ensures 0 <= ShiftRight(x, n) < Pow2(32 - n)
    ensures 0 <= ShiftRight(x, n) + (x % Pow2(n)) * Pow2(32 - n) < MODULUS
  {
    hide Pow2;
    Pow32();
    Pow2Sum(n, 32 - n);
    RotateBound(x, Pow2(n), Pow2(32 - n));
  }

  /** Where no bit position is set on both sides, `|` adds. */
  lemma {:induction false} OrOfParts(low: nat, high: nat, k: nat, n: nat)
    requires k <= n && low < Pow2(k) && high < Pow2(n - k)
    ensures Combine(Either, low, high * Pow2(k), n) == low + high * Pow2(k)
    decreases n
  {
    hide *;
    Pow2Twice(k);
    if k > 0 {
      var p := Pow2(k - 1);
      DoubleProduct(high, p);
      MulNonNegative(high, p);
      assert low / 2 < p;
      OrOfParts(low / 2, high, k - 1, n - 1);
      OrStep(low, high * p, n);
    } else {
      OrZero(high, n);
      assert high * 1 == high;
    }
  }

  lemma OrStep(low: nat, y: nat, n: nat)
    requires n > 0
    ensures Combine(Either, low, 2 * y, n) == low % 2 + 2 * Combine(Either, low / 2, y, n - 1)
  {
    assert (2 * y) / 2 == y;
  }

  lemma {:induction false} OrZero(y: nat, n: nat)
    requires y < Pow2(n)
    ensures Combine(Either, 0, y, n) == y
    decreases n
  {
    if n > 0 { OrZero(y / 2, n - 1); }
  }

  lemma {:induction false} OrCommutes(x: nat, y: nat, n: nat)
    ensures Combine(Either, x, y, n) == Combine(Either, y, x, n)
    decreases n
  {
    if n > 0 { OrCommutes(x / 2, y / 2, n - 1); }
  }

  /** Masking with 2^k - 1 takes a remainder. */
  lemma AndMask(x: nat, k: nat, n: nat)
    requires k <= n
    ensures Combine(Both, x, Pow2(k) - 1, n) == x % Pow2(k)
  {
    hide *;
    AndRemainder(x, k, n);
    RemainderIs(x, Pow2(k));
  }

  function Remainder(x: nat, m: nat): nat
    requires m > 0
  {
    x % m
  }

  lemma RemainderIs(x: nat, m: nat)
    requires m > 0
    ensures Remainder(x, m) == x % m && Remainder(x, 1) == 0
  {
  }

  lemma {:induction false} AndRemainder(x: nat, k: nat, n: nat)
    requires k <= n
    ensures Combine(Both, x, Pow2(k) - 1, n) == Remainder(x, Pow2(k))
    decreases n
  {
    hide *;
    Pow2Twice(k);
    if k == 0 {
      AndZero(x, n);
      RemainderIs(x, 1);
    } else {
      AndRemainder(x / 2, k - 1, n - 1);
      AndStep(x, Pow2(k - 1), n);
      RemainderByHalves(x, Pow2(k - 1));
    }
  }

  lemma AndStep(x: nat, p: nat, n: nat)
    requires n > 0 && p > 0
    ensures Combine(Both, x, 2 * p - 1, n) == x % 2 + 2 * Combine(Both, x / 2, p - 1, n - 1)
  {
    assert (2 * p - 1) / 2 == p - 1;
  }

  lemma {:induction false} AndZero(x: nat, n: nat)
    ensures Combine(Both, x, 0, n) == 0
    decreases n
  {
    if n > 0 { AndZero(x / 2, n - 1); }
  }

  lemma RemainderByHalves(x: nat, p: nat)
    requires p > 0
    ensures Remainder(x, 2 * p) == x % 2 + 2 * Remainder(x / 2, p)
  {
    HalfRemainder(x, p);
  }

  // ---- JavaScript operators ------------------------------------------------------------------

  function ToUint32(x: int): Word {
    x % MODULUS
  }

  /** The signed value of a word. */
  function Signed(w: Word): (r: Number)
    ensures -0x8000_0000 <= r < 0x8000_0000 && ToUint32(r) == w
  {
    if w < 0x8000_0000 then w else w - MODULUS
  }

  function JsAnd(x: int, y: int): Number { Signed(And(ToUint32(x), ToUint32(y))) }
  function JsOr(x: int, y: int): Number { Signed(Or(ToUint32(x), ToUint32(y))) }
  function JsXor(x: int, y: int): Number { Signed(Xor(ToUint32(x), ToUint32(y))) }
  function JsNot(x: int): Number { Signed(Not(ToUint32(x))) }

  /** x << n */
  function JsShl(x: int, n: nat): Number { Signed(ToUint32(ToUint32(x) * Pow2(n))) }

  /** x >> n */
  function JsSar(x: int, n: nat): int { Signed(ToUint32(x)) / Pow2(n) }

  /** x >>> n */
  function JsShr(x: int, n: nat): Word { ShiftRight(ToUint32(x), n) }
}
