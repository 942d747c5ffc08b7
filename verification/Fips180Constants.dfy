/** The constants of SHA-256 are what sections 4.2.2 and 5.3.3 of FIPS 180-4 say: the first 32 bits of
    the fractional parts of the cube and square roots of the first primes. */
module Fips180Constants {
  import opened Bits
  import opened Fips180
  import opened Words

  // ---- Primes -----------------------------------------------------------------------------------

  ghost predicate IsPrime(n: nat) {
    n >= 2 && forall d :: 2 <= d < n ==> n % d != 0
  }

  /** `q` is the next prime after `p`. */
  ghost predicate NextPrime(p: nat, q: nat) {
    p < q && IsPrime(q) && forall m :: p < m < q ==> !IsPrime(m)
  }

  /** A proper divisor among the primes below 18. */
  predicate HasSmallFactor(n: nat) {
    || (n > 2 && n % 2 == 0) || (n > 3 && n % 3 == 0) || (n > 5 && n % 5 == 0) || (n > 7 && n % 7 == 0)
    || (n > 11 && n % 11 == 0) || (n > 13 && n % 13 == 0) || (n > 17 && n % 17 == 0)
  }

  lemma FactorsAreComposite(n: nat)
    requires HasSmallFactor(n)
    ensures !IsPrime(n)
  {
    assert n % 2 == 0 || n % 3 == 0 || n % 5 == 0 || n % 7 == 0 || n % 11 == 0 || n % 13 == 0 || n % 17 == 0;
  }

  lemma MultipleOfPrime(f: nat, k: nat)
    requires f == 2 || f == 3 || f == 5 || f == 7 || f == 11 || f == 13 || f == 17
    requires k >= 2
    ensures HasSmallFactor(f * k)
  {
    if f == 2 {
      assert 2 * k % 2 == 0;
    } else if f == 3 {
      assert 3 * k % 3 == 0;
    } else if f == 5 {
      assert 5 * k % 5 == 0;
    } else if f == 7 {
      assert 7 * k % 7 == 0;
    } else if f == 11 {
      assert 11 * k % 11 == 0;
    } else if f == 13 {
      assert 13 * k % 13 == 0;
    } else {
      assert 17 * k % 17 == 0;
    }
  }

  lemma Multiple(d: nat, e: nat)
    requires 2 <= d < 18 && e >= 2
    ensures HasSmallFactor(d * e)
  {
    hide HasSmallFactor;
    if d % 2 == 0 {
      var h := d / 2;
      assert d * e == 2 * (h * e);
      assert h * e >= 2 by { assert h * e == e + (h - 1) * e; }
      MultipleOfPrime(2, h * e);
    } else if d == 9 || d == 15 {
      assert d * e == 3 * (d / 3 * e);
      MultipleOfPrime(3, d / 3 * e);
    } else {
      MultipleOfPrime(d, e);
    }
  }

  lemma NoSmallFactor(n: nat)
    requires 2 <= n < 324 && !HasSmallFactor(n)
    ensures IsPrime(n)
  {
    hide HasSmallFactor;
    forall d | 2 <= d < n
      ensures n % d != 0
    {
      if n % d == 0 {
        assert n == d * (n / d);
        TwoFactors(n, d, n / d);
      }
    }
  }

  lemma TwoFactors(n: nat, d: nat, e: nat)
    requires n == d * e && 2 <= d < n < 324
    ensures HasSmallFactor(n)
  {
    hide HasSmallFactor;
    OtherFactor(d, e);
    if d < 18 {
      Multiple(d, e);
    } else {
      assert d * e == e * d;
      Multiple(e, d);
    }
  }

  lemma OtherFactor(d: nat, e: nat)
    requires 2 <= d < d * e < 324
    ensures e >= 2 && (d >= 18 ==> e < 18)
  {
    if d >= 18 && e >= 18 { ProductAtLeast(d, e, 18); }
  }

  lemma ProductAtLeast(d: nat, e: nat, m: nat)
    requires e >= m
    ensures d * e >= d * m
  {
    assert d * e == d * m + d * (e - m);
    MulNonNegative(d, e - m);
  }

  predicate NoneFrom(n: nat, end: nat)
    decreases end - n
  {
    n >= end || (HasSmallFactor(n) && NoneFrom(n + 1, end))
  }

  lemma {:induction false} NoneFromMeans(n: nat, end: nat, m: nat)
    requires NoneFrom(n, end) && n <= m < end
    ensures !IsPrime(m)
    decreases end - n
  {
    hide HasSmallFactor, IsPrime;
    if m == n { FactorsAreComposite(n); } else { NoneFromMeans(n + 1, end, m); }
  }

  lemma NextPrimeIs(p: nat, q: nat, after: nat)
    requires after == p + 1 && p < q < 324 && q >= 2 && !HasSmallFactor(q) && NoneFrom(after, q)
    ensures NextPrime(p, q)
  {
    hide HasSmallFactor, IsPrime;
    NoSmallFactor(q);
    forall m | p < m < q
      ensures !IsPrime(m)
    {
      NoneFromMeans(after, q, m);
    }
  }

  // ---- Roots --------------------------------------------------------------------------------------

  /** The first 32 bits of the fractional part of the cube root of `n` are `w`. */
  ghost predicate IsCubeRootFraction(w: Word, n: nat) {
    exists q: nat {:trigger CubeRootWith(q, w, n)} :: CubeRootWith(q, w, n)
  }

  predicate CubeRootWith(q: nat, w: Word, n: nat) {
    var r := q * MODULUS + w;
    r * r * r <= n * (MODULUS * MODULUS * MODULUS) < (r + 1) * (r + 1) * (r + 1)
  }

  /** The same for the square root. */
  ghost predicate IsSquareRootFraction(w: Word, n: nat) {
    exists q: nat {:trigger SquareRootWith(q, w, n)} :: SquareRootWith(q, w, n)
  }

  predicate SquareRootWith(q: nat, w: Word, n: nat) {
    var r := q * MODULUS + w;
    r * r <= n * (MODULUS * MODULUS) < (r + 1) * (r + 1)
  }

  lemma CubeRootIs(row: seq<Word>, j: nat, w: Word, n: nat, root: nat)
    requires j < |row| && row[j] == w && CubeRootWith(root, w, n)
    ensures IsCubeRootFraction(row[j], n)
  {
  }

  lemma SquareRootIs(i: nat, w: Word, n: nat, root: nat)
    requires i < 8 && H0[i] == w && SquareRootWith(root, w, n)
    ensures IsSquareRootFraction(H0[i], n)
  {
  }

  // ---- The tables -----------------------------------------------------------------------------------

  /** Counting from 0, `p` is prime number `i`. */
  ghost predicate IthPrime(i: nat, p: nat) {
    if i == 0 then NextPrime(1, p) else exists before :: IthPrime(i - 1, before) && NextPrime(before, p)
  }

  lemma PrimeAfter(i: nat, p: nat, q: nat, after: nat)
    requires IthPrime(i, p)
    requires after == p + 1 && p < q < 324 && q >= 2 && !HasSmallFactor(q) && NoneFrom(after, q)
    ensures IthPrime(i + 1, q)
  {
    hide HasSmallFactor, NextPrime;
    NextPrimeIs(p, q, after);
  }

  /** Round constant `i` comes from the cube root of prime number `i`. */
  ghost predicate KFromRoot(i: nat) {
    i < |K| && exists p :: IthPrime(i, p) && IsCubeRootFraction(K[i], p)
  }

  lemma KFrom(i: nat, p: nat, w: Word)
    requires i < |K| && K[i] == w && IthPrime(i, p) && IsCubeRootFraction(w, p)
    ensures KFromRoot(i)
  {
  }

  lemma KAt(i: nat)
    requires i < 64
    ensures |K| == 64
    ensures |K_0| == |K_1| == |K_2| == |K_3| == |K_4| == |K_5| == |K_6| == |K_7| == 8
    ensures K[i] == if i < 8 then K_0[i] else if i < 16 then K_1[i - 8] else if i < 24 then K_2[i - 16]
                    else if i < 32 then K_3[i - 24] else if i < 40 then K_4[i - 32] else if i < 48 then K_5[i - 40]
                    else if i < 56 then K_6[i - 48] else K_7[i - 56]
  {
    KLength();
  }

  lemma Primes0()
    ensures IthPrime(0, 2) && IthPrime(1, 3) && IthPrime(2, 5) && IthPrime(3, 7)
         && IthPrime(4, 11) && IthPrime(5, 13) && IthPrime(6, 17) && IthPrime(7, 19)
  {
    hide IthPrime;
    FirstPrime();
    PrimeAfter(0, 2, 3, 3);
    PrimeAfter(1, 3, 5, 4);
    PrimeAfter(2, 5, 7, 6);
    PrimeAfter(3, 7, 11, 8);
    PrimeAfter(4, 11, 13, 12);
    PrimeAfter(5, 13, 17, 14);
    PrimeAfter(6, 17, 19, 18);
  }

  lemma Roots0()
    ensures |K_0| == 8
    ensures IsCubeRootFraction(K_0[0], 2) && IsCubeRootFraction(K_0[1], 3)
         && IsCubeRootFraction(K_0[2], 5) && IsCubeRootFraction(K_0[3], 7)
         && IsCubeRootFraction(K_0[4], 11) && IsCubeRootFraction(K_0[5], 13)
         && IsCubeRootFraction(K_0[6], 17) && IsCubeRootFraction(K_0[7], 19)
  {
    hide IsCubeRootFraction;
    CubeRootIs(K_0, 0, 0x428a2f98, 2, 1);
    CubeRootIs(K_0, 1, 0x71374491, 3, 1);
    CubeRootIs(K_0, 2, 0xb5c0fbcf, 5, 1);
    CubeRootIs(K_0, 3, 0xe9b5dba5, 7, 1);
    CubeRootIs(K_0, 4, 0x3956c25b, 11, 2);
    CubeRootIs(K_0, 5, 0x59f111f1, 13, 2);
    CubeRootIs(K_0, 6, 0x923f82a4, 17, 2);
    CubeRootIs(K_0, 7, 0xab1c5ed5, 19, 2);
  }

  lemma Primes1()
    ensures IthPrime(8, 23) && IthPrime(9, 29) && IthPrime(10, 31) && IthPrime(11, 37)
         && IthPrime(12, 41) && IthPrime(13, 43) && IthPrime(14, 47) && IthPrime(15, 53)
  {
    hide IthPrime;
    Primes0();
    PrimeAfter(7, 19, 23, 20);
    PrimeAfter(8, 23, 29, 24);
    PrimeAfter(9, 29, 31, 30);
    PrimeAfter(10, 31, 37, 32);
    PrimeAfter(11, 37, 41, 38);
    PrimeAfter(12, 41, 43, 42);
    PrimeAfter(13, 43, 47, 44);
    PrimeAfter(14, 47, 53, 48);
  }

  lemma Roots1()
    ensures |K_1| == 8
    ensures IsCubeRootFraction(K_1[0], 23) && IsCubeRootFraction(K_1[1], 29)
         && IsCubeRootFraction(K_1[2], 31) && IsCubeRootFraction(K_1[3], 37)
         && IsCubeRootFraction(K_1[4], 41) && IsCubeRootFraction(K_1[5], 43)
         && IsCubeRootFraction(K_1[6], 47) && IsCubeRootFraction(K_1[7], 53)
  {
    hide IsCubeRootFraction;
    CubeRootIs(K_1, 0, 0xd807aa98, 23, 2);
    CubeRootIs(K_1, 1, 0x12835b01, 29, 3);
    CubeRootIs(K_1, 2, 0x243185be, 31, 3);
    CubeRootIs(K_1, 3, 0x550c7dc3, 37, 3);
    CubeRootIs(K_1, 4, 0x72be5d74, 41, 3);
    CubeRootIs(K_1, 5, 0x80deb1fe, 43, 3);
    CubeRootIs(K_1, 6, 0x9bdc06a7, 47, 3);
    CubeRootIs(K_1, 7, 0xc19bf174, 53, 3);
  }

  lemma Primes2()
    ensures IthPrime(16, 59) && IthPrime(17, 61) && IthPrime(18, 67) && IthPrime(19, 71)
         && IthPrime(20, 73) && IthPrime(21, 79) && IthPrime(22, 83) && IthPrime(23, 89)
  {
    hide IthPrime;
    Primes1();
    PrimeAfter(15, 53, 59, 54);
    PrimeAfter(16, 59, 61, 60);
    PrimeAfter(17, 61, 67, 62);
    PrimeAfter(18, 67, 71, 68);
    PrimeAfter(19, 71, 73, 72);
    PrimeAfter(20, 73, 79, 74);
    PrimeAfter(21, 79, 83, 80);
    PrimeAfter(22, 83, 89, 84);
  }

  lemma Roots2()
    ensures |K_2| == 8
    ensures IsCubeRootFraction(K_2[0], 59) && IsCubeRootFraction(K_2[1], 61)
         && IsCubeRootFraction(K_2[2], 67) && IsCubeRootFraction(K_2[3], 71)
         && IsCubeRootFraction(K_2[4], 73) && IsCubeRootFraction(K_2[5], 79)
         && IsCubeRootFraction(K_2[6], 83) && IsCubeRootFraction(K_2[7], 89)
  {
    hide IsCubeRootFraction;
    CubeRootIs(K_2, 0, 0xe49b69c1, 59, 3);
    CubeRootIs(K_2, 1, 0xefbe4786, 61, 3);
    CubeRootIs(K_2, 2, 0x0fc19dc6, 67, 4);
    CubeRootIs(K_2, 3, 0x240ca1cc, 71, 4);
    CubeRootIs(K_2, 4, 0x2de92c6f, 73, 4);
    CubeRootIs(K_2, 5, 0x4a7484aa, 79, 4);
    CubeRootIs(K_2, 6, 0x5cb0a9dc, 83, 4);
    CubeRootIs(K_2, 7, 0x76f988da, 89, 4);
  }

  lemma Primes3()
    ensures IthPrime(24, 97) && IthPrime(25, 101) && IthPrime(26, 103) && IthPrime(27, 107)
         && IthPrime(28, 109) && IthPrime(29, 113) && IthPrime(30, 127) && IthPrime(31, 131)
  {
    hide IthPrime;
    Primes2();
    PrimeAfter(23, 89, 97, 90);
    PrimeAfter(24, 97, 101, 98);
    PrimeAfter(25, 101, 103, 102);
    PrimeAfter(26, 103, 107, 104);
    PrimeAfter(27, 107, 109, 108);
    PrimeAfter(28, 109, 113, 110);
    PrimeAfter(29, 113, 127, 114);
    PrimeAfter(30, 127, 131, 128);
  }

  lemma Roots3()
    ensures |K_3| == 8
    ensures IsCubeRootFraction(K_3[0], 97) && IsCubeRootFraction(K_3[1], 101)
         && IsCubeRootFraction(K_3[2], 103) && IsCubeRootFraction(K_3[3], 107)
         && IsCubeRootFraction(K_3[4], 109) && IsCubeRootFraction(K_3[5], 113)
         && IsCubeRootFraction(K_3[6], 127) && IsCubeRootFraction(K_3[7], 131)
  {
    hide IsCubeRootFraction;
    CubeRootIs(K_3, 0, 0x983e5152, 97, 4);
    CubeRootIs(K_3, 1, 0xa831c66d, 101, 4);
    CubeRootIs(K_3, 2, 0xb00327c8, 103, 4);
    CubeRootIs(K_3, 3, 0xbf597fc7, 107, 4);
    CubeRootIs(K_3, 4, 0xc6e00bf3, 109, 4);
    CubeRootIs(K_3, 5, 0xd5a79147, 113, 4);
    CubeRootIs(K_3, 6, 0x06ca6351, 127, 5);
    CubeRootIs(K_3, 7, 0x14292967, 131, 5);
  }

  lemma Primes4()
    ensures IthPrime(32, 137) && IthPrime(33, 139) && IthPrime(34, 149) && IthPrime(35, 151)
         && IthPrime(36, 157) && IthPrime(37, 163) && IthPrime(38, 167) && IthPrime(39, 173)
  {
    hide IthPrime;
    Primes3();
    PrimeAfter(31, 131, 137, 132);
    PrimeAfter(32, 137, 139, 138);
    PrimeAfter(33, 139, 149, 140);
    PrimeAfter(34, 149, 151, 150);
    PrimeAfter(35, 151, 157, 152);
    PrimeAfter(36, 157, 163, 158);
    PrimeAfter(37, 163, 167, 164);
    PrimeAfter(38, 167, 173, 168);
  }

  lemma Roots4()
    ensures |K_4| == 8
    ensures IsCubeRootFraction(K_4[0], 137) && IsCubeRootFraction(K_4[1], 139)
         && IsCubeRootFraction(K_4[2], 149) && IsCubeRootFraction(K_4[3], 151)
         && IsCubeRootFraction(K_4[4], 157) && IsCubeRootFraction(K_4[5], 163)
         && IsCubeRootFraction(K_4[6], 167) && IsCubeRootFraction(K_4[7], 173)
  {
    hide IsCubeRootFraction;
    CubeRootIs(K_4, 0, 0x27b70a85, 137, 5);
    CubeRootIs(K_4, 1, 0x2e1b2138, 139, 5);
    CubeRootIs(K_4, 2, 0x4d2c6dfc, 149, 5);
    CubeRootIs(K_4, 3, 0x53380d13, 151, 5);
    CubeRootIs(K_4, 4, 0x650a7354, 157, 5);
    CubeRootIs(K_4, 5, 0x766a0abb, 163, 5);
    CubeRootIs(K_4, 6, 0x81c2c92e, 167, 5);
    CubeRootIs(K_4, 7, 0x92722c85, 173, 5);
  }

  lemma Primes5()
    ensures IthPrime(40, 179) && IthPrime(41, 181) && IthPrime(42, 191) && IthPrime(43, 193)
         && IthPrime(44, 197) && IthPrime(45, 199) && IthPrime(46, 211) && IthPrime(47, 223)
  {
    hide IthPrime;
    Primes4();
    PrimeAfter(39, 173, 179, 174);
    PrimeAfter(40, 179, 181, 180);
    PrimeAfter(41, 181, 191, 182);
    PrimeAfter(42, 191, 193, 192);
    PrimeAfter(43, 193, 197, 194);
    PrimeAfter(44, 197, 199, 198);
    PrimeAfter(45, 199, 211, 200);
    PrimeAfter(46, 211, 223, 212);
  }

  lemma Roots5()
    ensures |K_5| == 8
    ensures IsCubeRootFraction(K_5[0], 179) && IsCubeRootFraction(K_5[1], 181)
         && IsCubeRootFraction(K_5[2], 191) && IsCubeRootFraction(K_5[3], 193)
         && IsCubeRootFraction(K_5[4], 197) && IsCubeRootFraction(K_5[5], 199)
         && IsCubeRootFraction(K_5[6], 211) && IsCubeRootFraction(K_5[7], 223)
  {
    hide IsCubeRootFraction;
    CubeRootIs(K_5, 0, 0xa2bfe8a1, 179, 5);
    CubeRootIs(K_5, 1, 0xa81a664b, 181, 5);
    CubeRootIs(K_5, 2, 0xc24b8b70, 191, 5);
    CubeRootIs(K_5, 3, 0xc76c51a3, 193, 5);
    CubeRootIs(K_5, 4, 0xd192e819, 197, 5);
    CubeRootIs(K_5, 5, 0xd6990624, 199, 5);
    CubeRootIs(K_5, 6, 0xf40e3585, 211, 5);
    CubeRootIs(K_5, 7, 0x106aa070, 223, 6);
  }

  lemma Primes6()
    ensures IthPrime(48, 227) && IthPrime(49, 229) && IthPrime(50, 233) && IthPrime(51, 239)
         && IthPrime(52, 241) && IthPrime(53, 251) && IthPrime(54, 257) && IthPrime(55, 263)
  {
    hide IthPrime;
    Primes5();
    PrimeAfter(47, 223, 227, 224);
    PrimeAfter(48, 227, 229, 228);
    PrimeAfter(49, 229, 233, 230);
    PrimeAfter(50, 233, 239, 234);
    PrimeAfter(51, 239, 241, 240);
    PrimeAfter(52, 241, 251, 242);
    PrimeAfter(53, 251, 257, 252);
    PrimeAfter(54, 257, 263, 258);
  }

  lemma Roots6()
    ensures |K_6| == 8
    ensures IsCubeRootFraction(K_6[0], 227) && IsCubeRootFraction(K_6[1], 229)
         && IsCubeRootFraction(K_6[2], 233) && IsCubeRootFraction(K_6[3], 239)
         && IsCubeRootFraction(K_6[4], 241) && IsCubeRootFraction(K_6[5], 251)
         && IsCubeRootFraction(K_6[6], 257) && IsCubeRootFraction(K_6[7], 263)
  {
    hide IsCubeRootFraction;
    CubeRootIs(K_6, 0, 0x19a4c116, 227, 6);
    CubeRootIs(K_6, 1, 0x1e376c08, 229, 6);
    CubeRootIs(K_6, 2, 0x2748774c, 233, 6);
    CubeRootIs(K_6, 3, 0x34b0bcb5, 239, 6);
    CubeRootIs(K_6, 4, 0x391c0cb3, 241, 6);
    CubeRootIs(K_6, 5, 0x4ed8aa4a, 251, 6);
    CubeRootIs(K_6, 6, 0x5b9cca4f, 257, 6);
    CubeRootIs(K_6, 7, 0x682e6ff3, 263, 6);
  }

  lemma Primes7()
    ensures IthPrime(56, 269) && IthPrime(57, 271) && IthPrime(58, 277) && IthPrime(59, 281)
         && IthPrime(60, 283) && IthPrime(61, 293) && IthPrime(62, 307) && IthPrime(63, 311)
  {
    hide IthPrime;
    Primes6();
    PrimeAfter(55, 263, 269, 264);
    PrimeAfter(56, 269, 271, 270);
    PrimeAfter(57, 271, 277, 272);
    PrimeAfter(58, 277, 281, 278);
    PrimeAfter(59, 281, 283, 282);
    PrimeAfter(60, 283, 293, 284);
    PrimeAfter(61, 293, 307, 294);
    PrimeAfter(62, 307, 311, 308);
  }

  lemma Roots7()
    ensures |K_7| == 8
    ensures IsCubeRootFraction(K_7[0], 269) && IsCubeRootFraction(K_7[1], 271)
         && IsCubeRootFraction(K_7[2], 277) && IsCubeRootFraction(K_7[3], 281)
         && IsCubeRootFraction(K_7[4], 283) && IsCubeRootFraction(K_7[5], 293)
         && IsCubeRootFraction(K_7[6], 307) && IsCubeRootFraction(K_7[7], 311)
  {
    hide IsCubeRootFraction;
    CubeRootIs(K_7, 0, 0x748f82ee, 269, 6);
    CubeRootIs(K_7, 1, 0x78a5636f, 271, 6);
    CubeRootIs(K_7, 2, 0x84c87814, 277, 6);
    CubeRootIs(K_7, 3, 0x8cc70208, 281, 6);
    CubeRootIs(K_7, 4, 0x90befffa, 283, 6);
    CubeRootIs(K_7, 5, 0xa4506ceb, 293, 6);
    CubeRootIs(K_7, 6, 0xbef9a3f7, 307, 6);
    CubeRootIs(K_7, 7, 0xc67178f2, 311, 6);
  }

  lemma FirstPrime()
    ensures IthPrime(0, 2)
  {
    NextPrimeIs(1, 2, 2);
  }

  lemma Rows0(i: nat)
    requires 0 <= i < 8
    ensures KFromRoot(i)
  {
    hide *;
    Primes0();
    Roots0();
    KAt(i);
    KFrom(i, if i == 0 then 2 else if i == 1 then 3 else if i == 2 then 5 else if i == 3 then 7 else if i == 4 then 11
             else if i == 5 then 13 else if i == 6 then 17 else 19, K[i]);
  }

  lemma Rows1(i: nat)
    requires 8 <= i < 16
    ensures KFromRoot(i)
  {
    hide *;
    Primes1();
    Roots1();
    KAt(i);
    KFrom(i, if i == 8 then 23 else if i == 9 then 29 else if i == 10 then 31 else if i == 11 then 37 else if i == 12 then 41
             else if i == 13 then 43 else if i == 14 then 47 else 53, K[i]);
  }

  lemma Rows2(i: nat)
    requires 16 <= i < 24
    ensures KFromRoot(i)
  {
    hide *;
    Primes2();
    Roots2();
    KAt(i);
    KFrom(i, if i == 16 then 59 else if i == 17 then 61 else if i == 18 then 67 else if i == 19 then 71 else if i == 20 then 73
             else if i == 21 then 79 else if i == 22 then 83 else 89, K[i]);
  }

  lemma Rows3(i: nat)
    requires 24 <= i < 32
    ensures KFromRoot(i)
  {
    hide *;
    Primes3();
    Roots3();
    KAt(i);
    KFrom(i, if i == 24 then 97 else if i == 25 then 101 else if i == 26 then 103 else if i == 27 then 107 else if i == 28 then 109
             else if i == 29 then 113 else if i == 30 then 127 else 131, K[i]);
  }

  lemma Rows4(i: nat)
    requires 32 <= i < 40
    ensures KFromRoot(i)
  {
    hide *;
    Primes4();
    Roots4();
    KAt(i);
    KFrom(i, if i == 32 then 137 else if i == 33 then 139 else if i == 34 then 149 else if i == 35 then 151 else if i == 36 then 157
             else if i == 37 then 163 else if i == 38 then 167 else 173, K[i]);
  }

  lemma Rows5(i: nat)
    requires 40 <= i < 48
    ensures KFromRoot(i)
  {
    hide *;
    Primes5();
    Roots5();
    KAt(i);
    KFrom(i, if i == 40 then 179 else if i == 41 then 181 else if i == 42 then 191 else if i == 43 then 193 else if i == 44 then 197
             else if i == 45 then 199 else if i == 46 then 211 else 223, K[i]);
  }

  lemma Rows6(i: nat)
    requires 48 <= i < 56
    ensures KFromRoot(i)
  {
    hide *;
    Primes6();
    Roots6();
    KAt(i);
    KFrom(i, if i == 48 then 227 else if i == 49 then 229 else if i == 50 then 233 else if i == 51 then 239 else if i == 52 then 241
             else if i == 53 then 251 else if i == 54 then 257 else 263, K[i]);
  }

  lemma Rows7(i: nat)
    requires 56 <= i < 64
    ensures KFromRoot(i)
  {
    hide *;
    Primes7();
    Roots7();
    KAt(i);
    KFrom(i, if i == 56 then 269 else if i == 57 then 271 else if i == 58 then 277 else if i == 59 then 281 else if i == 60 then 283
             else if i == 61 then 293 else if i == 62 then 307 else 311, K[i]);
  }

  /** Section 4.2.2: the round constants are the first 32 bits of the fractional parts of the cube
      roots of the first 64 primes. */
  lemma KIsStandard(i: nat)
    requires i < 64
    ensures |K| == 64 && exists p :: IthPrime(i, p) && IsCubeRootFraction(K[i], p)
  {
    hide IthPrime, IsCubeRootFraction, K;
    if i < 8 {
      Rows0(i);
    } else if i < 16 {
      Rows1(i);
    } else if i < 24 {
      Rows2(i);
    } else if i < 32 {
      Rows3(i);
    } else if i < 40 {
      Rows4(i);
    } else if i < 48 {
      Rows5(i);
    } else if i < 56 {
      Rows6(i);
    } else {
      Rows7(i);
    }
    KAt(i);
  }

  /** Section 5.3.3: the initial hash value comes from the square roots of the first eight primes. */
  lemma H0IsStandard(i: nat)
    requires i < 8
    ensures exists p :: IthPrime(i, p) && IsSquareRootFraction(H0[i], p)
  {
    hide IthPrime, IsSquareRootFraction;
    Primes0();
    SquareRootIs(0, 0x6a09e667, 2, 1);
    SquareRootIs(1, 0xbb67ae85, 3, 1);
    SquareRootIs(2, 0x3c6ef372, 5, 2);
    SquareRootIs(3, 0xa54ff53a, 7, 2);
    SquareRootIs(4, 0x510e527f, 11, 3);
    SquareRootIs(5, 0x9b05688c, 13, 3);
    SquareRootIs(6, 0x1f83d9ab, 17, 4);
    SquareRootIs(7, 0x5be0cd19, 19, 4);
    assert i == 0 || i == 1 || i == 2 || i == 3 || i == 4 || i == 5 || i == 6 || i == 7;
  }
}
