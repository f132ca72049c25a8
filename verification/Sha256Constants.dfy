/** What the constants of `Sha256` are (sections 4.2.2 and 5.3.3 of FIPS 180-4): the first 32 bits behind the point of
    roots of primes. */
module Sha256Constants {
  import opened Sha256

  /** What a word can hold, as a number. */
  type Number = n: nat | n < 0x1_0000_0000

  // ---------------------------------------------------------------- primes

  predicate IsPrime(n: nat)
  {
    n >= 2 && forall d | 2 <= d < n :: n % d != 0
  }

  function PrimesBelow(n: nat): (k: nat)
  {
    if n == 0 then 0 else PrimesBelow(n - 1) + if IsPrime(n - 1) then 1 else 0
  }

  /** `p` is the prime with `i` others before it. */
  predicate IsPrimeNumber(i: nat, p: nat)
  {
    IsPrime(p) && PrimesBelow(p) == i
  }

  predicate Passes(n: nat, d: nat)
    requires d > 0
  {
    n == d || n % d != 0
  }

  /** No prime below 19 divides `n`, unless it is `n`. */
  predicate Sieved(n: nat)
  {
    && n >= 2 && Passes(n, 2) && Passes(n, 3) && Passes(n, 5) && Passes(n, 7)
    && Passes(n, 11) && Passes(n, 13) && Passes(n, 17)
  }

  /** Below the square of 19 that is enough. */
  lemma SievedIsPrime(n: nat)
    requires n < 361
    ensures Sieved(n) <==> IsPrime(n)
  {
    if Sieved(n) {
      forall d | 2 <= d < n
        ensures n % d != 0
      {
        if n % d == 0 {
          hide Sieved;
          Cofactor(n, d);
          SmallDivisor(n, if d < 19 then d else n / d, if d < 19 then n / d else d);
        }
      }
    }
  }

  lemma Cofactor(n: nat, d: nat)
    requires n < 361 && 2 <= d < n && n % d == 0
    ensures n == d * (n / d) && 2 <= n / d < n && (d < 19 || n / d < 19)
  {
    if d >= 19 && n / d >= 19 {
      NotBelow(d, n / d);
    }
  }

  lemma NotBelow(d: nat, e: nat)
    requires d >= 19 && e >= 19
    ensures d * e >= 361
  {
    assert d * e >= 19 * e;
  }

  lemma SmallDivisor(n: nat, d: nat, e: nat)
    requires 2 <= d < 19 && d < n && n == d * e
    ensures !Sieved(n)
  {
    var p := LeastPrime(d);
    Multiple(n, p, d / p * e);
  }

  lemma Multiple(n: nat, p: nat, m: nat)
    requires p in {2, 3, 5, 7, 11, 13, 17} && n == p * m
    ensures n % p == 0
  {
    TwoOrThree(n, m);
    FiveOrSeven(n, m);
    ElevenOrThirteen(n, m);
    Seventeen(n, m);
  }

  lemma TwoOrThree(n: nat, m: nat)
    ensures (n == 2 * m ==> n % 2 == 0) && (n == 3 * m ==> n % 3 == 0)
  {
  }

  lemma FiveOrSeven(n: nat, m: nat)
    ensures (n == 5 * m ==> n % 5 == 0) && (n == 7 * m ==> n % 7 == 0)
  {
  }

  lemma ElevenOrThirteen(n: nat, m: nat)
    ensures (n == 11 * m ==> n % 11 == 0) && (n == 13 * m ==> n % 13 == 0)
  {
  }

  lemma Seventeen(n: nat, m: nat)
    ensures n == 17 * m ==> n % 17 == 0
  {
  }

  function LeastPrime(d: nat): (p: nat)
    requires 2 <= d < 19
    ensures p in {2, 3, 5, 7, 11, 13, 17} && p <= d && d == p * (d / p)
  {
    if d % 2 == 0 then 2 else if d % 3 == 0 then 3 else d
  }

  /** No prime strictly between two numbers. */
  predicate NoneBetween(q: nat, p: nat)
  {
    p <= q + 1 || (!Sieved(p - 1) && NoneBetween(q, p - 1))
  }

  lemma {:induction false} NextPrime(i: nat, q: nat, p: nat)
    requires IsPrimeNumber(i, q) && q < p < 361 && Sieved(p) && NoneBetween(q, p)
    ensures IsPrimeNumber(i + 1, p)
  {
    SievedIsPrime(p);
    NoPrimesBetween(q, p);
  }

  lemma {:induction false} NoPrimesBetween(q: nat, p: nat)
    requires q < p < 361 && NoneBetween(q, p)
    ensures PrimesBelow(p) == PrimesBelow(q + 1)
  {
    if q + 1 < p {
      SievedIsPrime(p - 1);
      NoPrimesBetween(q, p - 1);
    }
  }

  // ---------------------------------------------------------------- roots

  const TWO32: nat := 0x1_0000_0000

  function Square(n: nat): nat { n * n }

  function Cube(n: nat): nat { n * n * n }

  /** The root of `p` is `n` and a fraction, whose first 32 bits are `k`. */
  predicate CubeRoot(k: Number, p: nat, n: nat)
  {
    Cube(n * TWO32 + k) <= p * Cube(TWO32) < Cube(n * TWO32 + k + 1)
  }

  predicate SquareRoot(k: Number, p: nat, n: nat)
  {
    Square(n * TWO32 + k) <= p * Square(TWO32) < Square(n * TWO32 + k + 1)
  }

  ghost predicate FromCubeRoot(k: Number, i: nat)
  {
    exists p, n :: IsPrimeNumber(i, p) && CubeRoot(k, p, n)
  }

  ghost predicate FromSquareRoot(k: Number, i: nat)
  {
    exists p, n :: IsPrimeNumber(i, p) && SquareRoot(k, p, n)
  }

  /** One constant, and on to the next prime. */
  lemma Next(i: nat, p: nat, n: nat, k: Number, next: nat)
    requires i < 64 && IsPrimeNumber(i, p) && CubeRoot(k, p, n)
    requires p < next < 361 && Sieved(next) && NoneBetween(p, next)
    ensures FromCubeRoot(k, i) && IsPrimeNumber(i + 1, next)
  {
    NextPrime(i, p, next);
  }

  lemma TwoIsFirst()
    ensures IsPrimeNumber(0, 2)
  {
    assert PrimesBelow(1) == 0;
  }

  /** The constant of round `t` is the fraction of the cube root of the prime with `t` others before it. */
  ghost predicate IsConstant(t: nat)
    requires t < 64
  {
    exists k: Number :: FromCubeRoot(k, t) && K(t) == k as word
  }

  lemma Constants0()
    ensures IsPrimeNumber(4, 11) && forall t | 0 <= t < 4 :: IsConstant(t)
  {
    hide IsPrimeNumber, FromCubeRoot, IsPrime, PrimesBelow;
    TwoIsFirst();
    Next(0, 2, 1, 0x428A2F98, 3);
    Next(1, 3, 1, 0x71374491, 5);
    Next(2, 5, 1, 0xB5C0FBCF, 7);
    Next(3, 7, 1, 0xE9B5DBA5, 11);
  }

  lemma Constants4()
    requires IsPrimeNumber(4, 11)
    ensures IsPrimeNumber(8, 23) && forall t | 4 <= t < 8 :: IsConstant(t)
  {
    hide IsPrimeNumber, FromCubeRoot, IsPrime, PrimesBelow;
    Next(4, 11, 2, 0x3956C25B, 13);
    Next(5, 13, 2, 0x59F111F1, 17);
    Next(6, 17, 2, 0x923F82A4, 19);
    Next(7, 19, 2, 0xAB1C5ED5, 23);
  }

  lemma Constants8()
    requires IsPrimeNumber(8, 23)
    ensures IsPrimeNumber(12, 41) && forall t | 8 <= t < 12 :: IsConstant(t)
  {
    hide IsPrimeNumber, FromCubeRoot, IsPrime, PrimesBelow;
    Next(8, 23, 2, 0xD807AA98, 29);
    Next(9, 29, 3, 0x12835B01, 31);
    Next(10, 31, 3, 0x243185BE, 37);
    Next(11, 37, 3, 0x550C7DC3, 41);
  }

  lemma Constants12()
    requires IsPrimeNumber(12, 41)
    ensures IsPrimeNumber(16, 59) && forall t | 12 <= t < 16 :: IsConstant(t)
  {
    hide IsPrimeNumber, FromCubeRoot, IsPrime, PrimesBelow;
    Next(12, 41, 3, 0x72BE5D74, 43);
    Next(13, 43, 3, 0x80DEB1FE, 47);
    Next(14, 47, 3, 0x9BDC06A7, 53);
    Next(15, 53, 3, 0xC19BF174, 59);
  }

  lemma Constants16()
    requires IsPrimeNumber(16, 59)
    ensures IsPrimeNumber(20, 73) && forall t | 16 <= t < 20 :: IsConstant(t)
  {
    hide IsPrimeNumber, FromCubeRoot, IsPrime, PrimesBelow;
    Next(16, 59, 3, 0xE49B69C1, 61);
    Next(17, 61, 3, 0xEFBE4786, 67);
    Next(18, 67, 4, 0x0FC19DC6, 71);
    Next(19, 71, 4, 0x240CA1CC, 73);
  }

  lemma Constants20()
    requires IsPrimeNumber(20, 73)
    ensures IsPrimeNumber(24, 97) && forall t | 20 <= t < 24 :: IsConstant(t)
  {
    hide IsPrimeNumber, FromCubeRoot, IsPrime, PrimesBelow;
    Next(20, 73, 4, 0x2DE92C6F, 79);
    Next(21, 79, 4, 0x4A7484AA, 83);
    Next(22, 83, 4, 0x5CB0A9DC, 89);
    Next(23, 89, 4, 0x76F988DA, 97);
  }

  lemma Constants24()
    requires IsPrimeNumber(24, 97)
    ensures IsPrimeNumber(28, 109) && forall t | 24 <= t < 28 :: IsConstant(t)
  {
    hide IsPrimeNumber, FromCubeRoot, IsPrime, PrimesBelow;
    Next(24, 97, 4, 0x983E5152, 101);
    Next(25, 101, 4, 0xA831C66D, 103);
    Next(26, 103, 4, 0xB00327C8, 107);
    Next(27, 107, 4, 0xBF597FC7, 109);
  }

  lemma Constants28()
    requires IsPrimeNumber(28, 109)
    ensures IsPrimeNumber(32, 137) && forall t | 28 <= t < 32 :: IsConstant(t)
  {
    hide IsPrimeNumber, FromCubeRoot, IsPrime, PrimesBelow;
    Next(28, 109, 4, 0xC6E00BF3, 113);
    Next(29, 113, 4, 0xD5A79147, 127);
    Next(30, 127, 5, 0x06CA6351, 131);
    Next(31, 131, 5, 0x14292967, 137);
  }

  lemma Constants32()
    requires IsPrimeNumber(32, 137)
    ensures IsPrimeNumber(36, 157) && forall t | 32 <= t < 36 :: IsConstant(t)
  {
    hide IsPrimeNumber, FromCubeRoot, IsPrime, PrimesBelow;
    Next(32, 137, 5, 0x27B70A85, 139);
    Next(33, 139, 5, 0x2E1B2138, 149);
    Next(34, 149, 5, 0x4D2C6DFC, 151);
    Next(35, 151, 5, 0x53380D13, 157);
  }

  lemma Constants36()
    requires IsPrimeNumber(36, 157)
    ensures IsPrimeNumber(40, 179) && forall t | 36 <= t < 40 :: IsConstant(t)
  {
    hide IsPrimeNumber, FromCubeRoot, IsPrime, PrimesBelow;
    Next(36, 157, 5, 0x650A7354, 163);
    Next(37, 163, 5, 0x766A0ABB, 167);
    Next(38, 167, 5, 0x81C2C92E, 173);
    Next(39, 173, 5, 0x92722C85, 179);
  }

  lemma Constants40()
    requires IsPrimeNumber(40, 179)
    ensures IsPrimeNumber(44, 197) && forall t | 40 <= t < 44 :: IsConstant(t)
  {
    hide IsPrimeNumber, FromCubeRoot, IsPrime, PrimesBelow;
    Next(40, 179, 5, 0xA2BFE8A1, 181);
    Next(41, 181, 5, 0xA81A664B, 191);
    Next(42, 191, 5, 0xC24B8B70, 193);
    Next(43, 193, 5, 0xC76C51A3, 197);
  }

  lemma Constants44()
    requires IsPrimeNumber(44, 197)
    ensures IsPrimeNumber(48, 227) && forall t | 44 <= t < 48 :: IsConstant(t)
  {
    hide IsPrimeNumber, FromCubeRoot, IsPrime, PrimesBelow;
    Next(44, 197, 5, 0xD192E819, 199);
    Next(45, 199, 5, 0xD6990624, 211);
    Next(46, 211, 5, 0xF40E3585, 223);
    Next(47, 223, 6, 0x106AA070, 227);
  }

  lemma Constants48()
    requires IsPrimeNumber(48, 227)
    ensures IsPrimeNumber(52, 241) && forall t | 48 <= t < 52 :: IsConstant(t)
  {
    hide IsPrimeNumber, FromCubeRoot, IsPrime, PrimesBelow;
    Next(48, 227, 6, 0x19A4C116, 229);
    Next(49, 229, 6, 0x1E376C08, 233);
    Next(50, 233, 6, 0x2748774C, 239);
    Next(51, 239, 6, 0x34B0BCB5, 241);
  }

  lemma Constants52()
    requires IsPrimeNumber(52, 241)
    ensures IsPrimeNumber(56, 269) && forall t | 52 <= t < 56 :: IsConstant(t)
  {
    hide IsPrimeNumber, FromCubeRoot, IsPrime, PrimesBelow;
    Next(52, 241, 6, 0x391C0CB3, 251);
    Next(53, 251, 6, 0x4ED8AA4A, 257);
    Next(54, 257, 6, 0x5B9CCA4F, 263);
    Next(55, 263, 6, 0x682E6FF3, 269);
  }

  lemma Constants56()
    requires IsPrimeNumber(56, 269)
    ensures IsPrimeNumber(60, 283) && forall t | 56 <= t < 60 :: IsConstant(t)
  {
    hide IsPrimeNumber, FromCubeRoot, IsPrime, PrimesBelow;
    Next(56, 269, 6, 0x748F82EE, 271);
    Next(57, 271, 6, 0x78A5636F, 277);
    Next(58, 277, 6, 0x84C87814, 281);
    Next(59, 281, 6, 0x8CC70208, 283);
  }

  lemma Constants60()
    requires IsPrimeNumber(60, 283)
    ensures IsPrimeNumber(64, 313) && forall t | 60 <= t < 64 :: IsConstant(t)
  {
    hide IsPrimeNumber, FromCubeRoot, IsPrime, PrimesBelow;
    Next(60, 283, 6, 0x90BEFFFA, 293);
    Next(61, 293, 6, 0xA4506CEB, 307);
    Next(62, 307, 6, 0xBEF9A3F7, 311);
    Next(63, 311, 6, 0xC67178F2, 313);
  }

  /** Every round constant is the fraction of the cube root of its prime. */
  lemma RoundConstants()
    ensures forall t | 0 <= t < 64 :: IsConstant(t)
  {
    hide *;
    Constants0();
    Constants4();
    Constants8();
    Constants12();
    Constants16();
    Constants20();
    Constants24();
    Constants28();
    Constants32();
    Constants36();
    Constants40();
    Constants44();
    Constants48();
    Constants52();
    Constants56();
    Constants60();
  }

  lemma Initial(i: nat, p: nat, n: nat, k: Number, next: nat)
    requires i < 8 && IsPrimeNumber(i, p) && SquareRoot(k, p, n)
    requires p < next < 361 && Sieved(next) && NoneBetween(p, next)
    ensures FromSquareRoot(k, i) && IsPrimeNumber(i + 1, next)
  {
    NextPrime(i, p, next);
  }

  /** And every word of the initial hash value that of the square root. */
  lemma InitialWords()
    ensures |H0| == 8 && forall i | 0 <= i < 8 :: exists k: Number :: FromSquareRoot(k, i) && H0[i] == k as word
  {
    TwoIsFirst();
    hide IsPrimeNumber, FromSquareRoot;
    Initial(0, 2, 1, 0x6A09E667, 3);
    Initial(1, 3, 1, 0xBB67AE85, 5);
    Initial(2, 5, 2, 0x3C6EF372, 7);
    Initial(3, 7, 2, 0xA54FF53A, 11);
    Initial(4, 11, 3, 0x510E527F, 13);
    Initial(5, 13, 3, 0x9B05688C, 17);
    Initial(6, 17, 4, 0x1F83D9AB, 19);
    Initial(7, 19, 4, 0x5BE0CD19, 23);
  }
}
