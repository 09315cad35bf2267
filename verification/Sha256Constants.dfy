/** Where the constants of SHA-256 come from: they are the first bits of the fractional parts of the cube roots of
    the first 64 primes and of the square roots of the first eight (FIPS 180-4, sections 4.2.2 and 5.3.3). */
module Sha256Constants {
  import opened Bits
  import opened Sha256Block
  import opened Sha256

  // ---------------------------------------------------------------------------------------------
  // Primes

  predicate Divides(d: nat, n: nat) { d > 0 && n % d == 0 }

  ghost predicate Prime(p: nat) {
    2 <= p && forall d: nat :: 2 <= d < p ==> !Divides(d, p)
  }

  ghost function PrimesBelow(n: nat): nat {
    if n == 0 then 0 else PrimesBelow(n - 1) + if Prime(n - 1) then 1 else 0
  }

  /** `t` primes are smaller than the prime `p`. */
  ghost predicate IsPrimeNumber(t: nat, p: nat) {
    Prime(p) && PrimesBelow(p) == t
  }

  lemma {:induction false} PrimesBelowGrows(p: nat, q: nat)
    requires p < q && Prime(p)
    ensures PrimesBelow(p) < PrimesBelow(q)
    decreases q
  {
    hide Prime;
    if p < q - 1 {
      PrimesBelowGrows(p, q - 1);
    }
  }

  lemma OnePrimeOfANumber(t: nat, p: nat, q: nat)
    requires IsPrimeNumber(t, p) && IsPrimeNumber(t, q)
    ensures p == q
  {
    hide Prime, PrimesBelow;
    if p < q {
      PrimesBelowGrows(p, q);
    } else if q < p {
      PrimesBelowGrows(q, p);
    }
  }

  /** None of the primes below 19 divides `n`, unless it is `n`. */
  predicate Sieved(n: nat) {
    && 2 <= n && (n % 2 != 0 || n == 2) && (n % 3 != 0 || n == 3) && (n % 5 != 0 || n == 5)
    && (n % 7 != 0 || n == 7) && (n % 11 != 0 || n == 11) && (n % 13 != 0 || n == 13) && (n % 17 != 0 || n == 17)
  }

  lemma DividesOn(q: nat, d: nat, n: nat)
    requires Divides(q, d) && Divides(d, n)
    ensures Divides(q, n)
  {
    var x, y := d / q, n / d;
    assert d == x * q && n == y * d;
    assert n == (y * x) * q;
    ModIsUnique(n, q, y * x, 0);
  }

  lemma SmallDivisor(d: nat, n: nat)
    requires 2 <= d < 19 && d < n && Divides(d, n)
    ensures !Sieved(n)
  {
    var q := if d % 2 == 0 then 2 else if d % 3 == 0 then 3 else d;
    DividesOn(q, d, n);
    assert q in {2, 3, 5, 7, 11, 13, 17};
  }

  lemma CoDivisor(d: nat, n: nat) returns (e: nat)
    requires 19 <= d < n < 361 && Divides(d, n)
    ensures 2 <= e < 19 && Divides(e, n)
  {
    e := n / d;
    DivModParts(n, d);
    assert n == e * d;
    ModIsUnique(n, e, d, 0);
  }

  /** Below 19 squared that makes it a prime. */
  lemma SievedIsPrime(n: nat)
    requires n < 361
    ensures Prime(n) <==> Sieved(n)
  {
    hide Divides;
    if Prime(n) {
      PrimeIsSieved(n);
    } else if 2 <= n {
      var d: nat :| 2 <= d < n && Divides(d, n);
      if d < 19 {
        SmallDivisor(d, n);
      } else {
        var e := CoDivisor(d, n);
        SmallDivisor(e, n);
      }
    }
  }

  lemma PrimeIsSieved(n: nat)
    requires Prime(n)
    ensures Sieved(n)
  {
    forall d: nat | d in {2, 3, 5, 7, 11, 13, 17}
      ensures n % d != 0 || n == d
    {
      if d < n {
        assert !Divides(d, n);
      } else if n < d {
        ModIsUnique(n, d, 0, n);
        assert n % d == n;
      }
    }
  }

  lemma {:induction false} NoneBetween(p: nat, q: nat)
    requires p < q && Prime(p) && forall n :: p < n < q ==> !Prime(n)
    ensures PrimesBelow(q) == PrimesBelow(p) + 1
    decreases q
  {
    hide Prime;
    if p < q - 1 {
      NoneBetween(p, q - 1);
    }
  }

  /** The first number from `n` on that stays in the sieve is `q`. */
  predicate SievedNext(n: nat, q: nat)
    decreases q - n
  {
    n <= q && if n == q then Sieved(q) else !Sieved(n) && SievedNext(n + 1, q)
  }

  lemma {:induction false} NothingSkipped(n: nat, q: nat)
    requires SievedNext(n, q)
    ensures Sieved(q) && forall x :: n <= x < q ==> !Sieved(x)
    decreases q - n
  {
    hide Sieved;
    if n < q {
      NothingSkipped(n + 1, q);
    }
  }

  lemma Follows(t: nat, p: nat, n: nat, q: nat)
    requires IsPrimeNumber(t, p) && n == p + 1 && q < 361 && SievedNext(n, q)
    ensures IsPrimeNumber(t + 1, q)
  {
    hide Prime, PrimesBelow, Sieved;
    NothingSkipped(n, q);
    SievedIsPrime(q);
    forall x | p < x < q
      ensures !Prime(x)
    {
      SievedIsPrime(x);
    }
    NoneBetween(p, q);
  }

  lemma TwoIsFirst()
    ensures IsPrimeNumber(0, 2)
  {
    hide Prime;
    SievedIsPrime(0);
    SievedIsPrime(1);
    SievedIsPrime(2);
    assert PrimesBelow(2) == PrimesBelow(1) == PrimesBelow(0) == 0;
  }

  // The first 64 primes, eight to a row.

  lemma Primes0()
    ensures IsPrimeNumber(0, 2) && IsPrimeNumber(1, 3) && IsPrimeNumber(2, 5)
    ensures IsPrimeNumber(3, 7) && IsPrimeNumber(4, 11) && IsPrimeNumber(5, 13)
    ensures IsPrimeNumber(6, 17) && IsPrimeNumber(7, 19)
  {
    hide IsPrimeNumber;
    TwoIsFirst();
    Follows(0, 2, 3, 3);
    Follows(1, 3, 4, 5);
    Follows(2, 5, 6, 7);
    Follows(3, 7, 8, 11);
    Follows(4, 11, 12, 13);
    Follows(5, 13, 14, 17);
    Follows(6, 17, 18, 19);
  }

  lemma Primes1()
    ensures IsPrimeNumber(8, 23) && IsPrimeNumber(9, 29) && IsPrimeNumber(10, 31)
    ensures IsPrimeNumber(11, 37) && IsPrimeNumber(12, 41) && IsPrimeNumber(13, 43)
    ensures IsPrimeNumber(14, 47) && IsPrimeNumber(15, 53)
  {
    hide IsPrimeNumber;
    Primes0();
    Follows(7, 19, 20, 23);
    Follows(8, 23, 24, 29);
    Follows(9, 29, 30, 31);
    Follows(10, 31, 32, 37);
    Follows(11, 37, 38, 41);
    Follows(12, 41, 42, 43);
    Follows(13, 43, 44, 47);
    Follows(14, 47, 48, 53);
  }

  lemma Primes2()
    ensures IsPrimeNumber(16, 59) && IsPrimeNumber(17, 61) && IsPrimeNumber(18, 67)
    ensures IsPrimeNumber(19, 71) && IsPrimeNumber(20, 73) && IsPrimeNumber(21, 79)
    ensures IsPrimeNumber(22, 83) && IsPrimeNumber(23, 89)
  {
    hide IsPrimeNumber;
    Primes1();
    Follows(15, 53, 54, 59);
    Follows(16, 59, 60, 61);
    Follows(17, 61, 62, 67);
    Follows(18, 67, 68, 71);
    Follows(19, 71, 72, 73);
    Follows(20, 73, 74, 79);
    Follows(21, 79, 80, 83);
    Follows(22, 83, 84, 89);
  }

  lemma Primes3()
    ensures IsPrimeNumber(24, 97) && IsPrimeNumber(25, 101) && IsPrimeNumber(26, 103)
    ensures IsPrimeNumber(27, 107) && IsPrimeNumber(28, 109) && IsPrimeNumber(29, 113)
    ensures IsPrimeNumber(30, 127) && IsPrimeNumber(31, 131)
  {
    hide IsPrimeNumber;
    Primes2();
    Follows(23, 89, 90, 97);
    Follows(24, 97, 98, 101);
    Follows(25, 101, 102, 103);
    Follows(26, 103, 104, 107);
    Follows(27, 107, 108, 109);
    Follows(28, 109, 110, 113);
    Follows(29, 113, 114, 127);
    Follows(30, 127, 128, 131);
  }

  lemma Primes4()
    ensures IsPrimeNumber(32, 137) && IsPrimeNumber(33, 139) && IsPrimeNumber(34, 149)
    ensures IsPrimeNumber(35, 151) && IsPrimeNumber(36, 157) && IsPrimeNumber(37, 163)
    ensures IsPrimeNumber(38, 167) && IsPrimeNumber(39, 173)
  {
    hide IsPrimeNumber;
    Primes3();
    Follows(31, 131, 132, 137);
    Follows(32, 137, 138, 139);
    Follows(33, 139, 140, 149);
    Follows(34, 149, 150, 151);
    Follows(35, 151, 152, 157);
    Follows(36, 157, 158, 163);
    Follows(37, 163, 164, 167);
    Follows(38, 167, 168, 173);
  }

  lemma Primes5()
    ensures IsPrimeNumber(40, 179) && IsPrimeNumber(41, 181) && IsPrimeNumber(42, 191)
    ensures IsPrimeNumber(43, 193) && IsPrimeNumber(44, 197) && IsPrimeNumber(45, 199)
    ensures IsPrimeNumber(46, 211) && IsPrimeNumber(47, 223)
  {
    hide IsPrimeNumber;
    Primes4();
    Follows(39, 173, 174, 179);
    Follows(40, 179, 180, 181);
    Follows(41, 181, 182, 191);
    Follows(42, 191, 192, 193);
    Follows(43, 193, 194, 197);
    Follows(44, 197, 198, 199);
    Follows(45, 199, 200, 211);
    Follows(46, 211, 212, 223);
  }

  lemma Primes6()
    ensures IsPrimeNumber(48, 227) && IsPrimeNumber(49, 229) && IsPrimeNumber(50, 233)
    ensures IsPrimeNumber(51, 239) && IsPrimeNumber(52, 241) && IsPrimeNumber(53, 251)
    ensures IsPrimeNumber(54, 257) && IsPrimeNumber(55, 263)
  {
    hide IsPrimeNumber;
    Primes5();
    Follows(47, 223, 224, 227);
    Follows(48, 227, 228, 229);
    Follows(49, 229, 230, 233);
    Follows(50, 233, 234, 239);
    Follows(51, 239, 240, 241);
    Follows(52, 241, 242, 251);
    Follows(53, 251, 252, 257);
    Follows(54, 257, 258, 263);
  }

  lemma Primes7()
    ensures IsPrimeNumber(56, 269) && IsPrimeNumber(57, 271) && IsPrimeNumber(58, 277)
    ensures IsPrimeNumber(59, 281) && IsPrimeNumber(60, 283) && IsPrimeNumber(61, 293)
    ensures IsPrimeNumber(62, 307) && IsPrimeNumber(63, 311)
  {
    hide IsPrimeNumber;
    Primes6();
    Follows(55, 263, 264, 269);
    Follows(56, 269, 270, 271);
    Follows(57, 271, 272, 277);
    Follows(58, 277, 278, 281);
    Follows(59, 281, 282, 283);
    Follows(60, 283, 284, 293);
    Follows(61, 293, 294, 307);
    Follows(62, 307, 308, 311);
  }

  // ---------------------------------------------------------------------------------------------
  // Roots

  function Square(x: nat): nat { x * x }

  function Cube(x: nat): nat { x * x * x }

  /** The whole part of a square root, and of a cube root. */
  predicate IsSquareRoot(x: nat, y: nat) { Square(x) <= y < Square(x + 1) }

  predicate IsCubeRoot(x: nat, y: nat) { Cube(x) <= y < Cube(x + 1) }

  const TWO_TO_THE_96: nat := 0x1_0000_0000_0000_0000_0000_0000

  /** Behind the whole part of the square root of `p`, the word has the next 32 bits. */
  ghost predicate SquareRootBits(p: nat, word: Word) {
    forall c: nat :: IsSquareRoot(c, p) ==> IsSquareRoot(c * TWO_TO_THE_32 + word as nat, p * TWO_TO_THE_64)
  }

  ghost predicate CubeRootBits(p: nat, word: Word) {
    forall c: nat :: IsCubeRoot(c, p) ==> IsCubeRoot(c * TWO_TO_THE_32 + word as nat, p * TWO_TO_THE_96)
  }

  lemma CubesGrow(x: nat, y: nat)
    requires x <= y
    ensures Square(x) <= Square(y) && Cube(x) <= Cube(y)
  {
    assert x * x <= y * y;
    assert x * x * x <= y * y * y;
  }

  lemma OneSquareRoot(c: nat, p: nat, word: Word)
    requires IsSquareRoot(c, p) && IsSquareRoot(c * TWO_TO_THE_32 + word as nat, p * TWO_TO_THE_64)
    ensures SquareRootBits(p, word)
  {
    hide Square;
    forall d: nat | IsSquareRoot(d, p)
      ensures d == c
    {
      if d < c { CubesGrow(d + 1, c); } else if c < d { CubesGrow(c + 1, d); }
    }
  }

  lemma OneCubeRoot(c: nat, p: nat, word: Word)
    requires IsCubeRoot(c, p) && IsCubeRoot(c * TWO_TO_THE_32 + word as nat, p * TWO_TO_THE_96)
    ensures CubeRootBits(p, word)
  {
    hide Cube;
    forall d: nat | IsCubeRoot(d, p)
      ensures d == c
    {
      if d < c { CubesGrow(d + 1, c); } else if c < d { CubesGrow(c + 1, d); }
    }
  }

  // A prime with so many primes below it is the one of the table.

  lemma Rows0(t: nat, p: nat)
    requires 0 <= t < 16 && IsPrimeNumber(t, p)
    ensures CubeRootBits(p, K(t))
  {
    hide IsPrimeNumber, CubeRootBits;
    Primes0();
    Primes1();
    if t == 0 { OnePrimeOfANumber(t, p, 2); OneCubeRoot(1, 2, K(0)); }
    else if t == 1 { OnePrimeOfANumber(t, p, 3); OneCubeRoot(1, 3, K(1)); }
    else if t == 2 { OnePrimeOfANumber(t, p, 5); OneCubeRoot(1, 5, K(2)); }
    else if t == 3 { OnePrimeOfANumber(t, p, 7); OneCubeRoot(1, 7, K(3)); }
    else if t == 4 { OnePrimeOfANumber(t, p, 11); OneCubeRoot(2, 11, K(4)); }
    else if t == 5 { OnePrimeOfANumber(t, p, 13); OneCubeRoot(2, 13, K(5)); }
    else if t == 6 { OnePrimeOfANumber(t, p, 17); OneCubeRoot(2, 17, K(6)); }
    else if t == 7 { OnePrimeOfANumber(t, p, 19); OneCubeRoot(2, 19, K(7)); }
    else if t == 8 { OnePrimeOfANumber(t, p, 23); OneCubeRoot(2, 23, K(8)); }
    else if t == 9 { OnePrimeOfANumber(t, p, 29); OneCubeRoot(3, 29, K(9)); }
    else if t == 10 { OnePrimeOfANumber(t, p, 31); OneCubeRoot(3, 31, K(10)); }
    else if t == 11 { OnePrimeOfANumber(t, p, 37); OneCubeRoot(3, 37, K(11)); }
    else if t == 12 { OnePrimeOfANumber(t, p, 41); OneCubeRoot(3, 41, K(12)); }
    else if t == 13 { OnePrimeOfANumber(t, p, 43); OneCubeRoot(3, 43, K(13)); }
    else if t == 14 { OnePrimeOfANumber(t, p, 47); OneCubeRoot(3, 47, K(14)); }
    else { OnePrimeOfANumber(t, p, 53); OneCubeRoot(3, 53, K(15)); }
  }

  lemma Rows1(t: nat, p: nat)
    requires 16 <= t < 32 && IsPrimeNumber(t, p)
    ensures CubeRootBits(p, K(t))
  {
    hide IsPrimeNumber, CubeRootBits;
    Primes2();
    Primes3();
    if t == 16 { OnePrimeOfANumber(t, p, 59); OneCubeRoot(3, 59, K(16)); }
    else if t == 17 { OnePrimeOfANumber(t, p, 61); OneCubeRoot(3, 61, K(17)); }
    else if t == 18 { OnePrimeOfANumber(t, p, 67); OneCubeRoot(4, 67, K(18)); }
    else if t == 19 { OnePrimeOfANumber(t, p, 71); OneCubeRoot(4, 71, K(19)); }
    else if t == 20 { OnePrimeOfANumber(t, p, 73); OneCubeRoot(4, 73, K(20)); }
    else if t == 21 { OnePrimeOfANumber(t, p, 79); OneCubeRoot(4, 79, K(21)); }
    else if t == 22 { OnePrimeOfANumber(t, p, 83); OneCubeRoot(4, 83, K(22)); }
    else if t == 23 { OnePrimeOfANumber(t, p, 89); OneCubeRoot(4, 89, K(23)); }
    else if t == 24 { OnePrimeOfANumber(t, p, 97); OneCubeRoot(4, 97, K(24)); }
    else if t == 25 { OnePrimeOfANumber(t, p, 101); OneCubeRoot(4, 101, K(25)); }
    else if t == 26 { OnePrimeOfANumber(t, p, 103); OneCubeRoot(4, 103, K(26)); }
    else if t == 27 { OnePrimeOfANumber(t, p, 107); OneCubeRoot(4, 107, K(27)); }
    else if t == 28 { OnePrimeOfANumber(t, p, 109); OneCubeRoot(4, 109, K(28)); }
    else if t == 29 { OnePrimeOfANumber(t, p, 113); OneCubeRoot(4, 113, K(29)); }
    else if t == 30 { OnePrimeOfANumber(t, p, 127); OneCubeRoot(5, 127, K(30)); }
    else { OnePrimeOfANumber(t, p, 131); OneCubeRoot(5, 131, K(31)); }
  }

  lemma Rows2(t: nat, p: nat)
    requires 32 <= t < 48 && IsPrimeNumber(t, p)
    ensures CubeRootBits(p, K(t))
  {
    hide IsPrimeNumber, CubeRootBits;
    Primes4();
    Primes5();
    if t == 32 { OnePrimeOfANumber(t, p, 137); OneCubeRoot(5, 137, K(32)); }
    else if t == 33 { OnePrimeOfANumber(t, p, 139); OneCubeRoot(5, 139, K(33)); }
    else if t == 34 { OnePrimeOfANumber(t, p, 149); OneCubeRoot(5, 149, K(34)); }
    else if t == 35 { OnePrimeOfANumber(t, p, 151); OneCubeRoot(5, 151, K(35)); }
    else if t == 36 { OnePrimeOfANumber(t, p, 157); OneCubeRoot(5, 157, K(36)); }
    else if t == 37 { OnePrimeOfANumber(t, p, 163); OneCubeRoot(5, 163, K(37)); }
    else if t == 38 { OnePrimeOfANumber(t, p, 167); OneCubeRoot(5, 167, K(38)); }
    else if t == 39 { OnePrimeOfANumber(t, p, 173); OneCubeRoot(5, 173, K(39)); }
    else if t == 40 { OnePrimeOfANumber(t, p, 179); OneCubeRoot(5, 179, K(40)); }
    else if t == 41 { OnePrimeOfANumber(t, p, 181); OneCubeRoot(5, 181, K(41)); }
    else if t == 42 { OnePrimeOfANumber(t, p, 191); OneCubeRoot(5, 191, K(42)); }
    else if t == 43 { OnePrimeOfANumber(t, p, 193); OneCubeRoot(5, 193, K(43)); }
    else if t == 44 { OnePrimeOfANumber(t, p, 197); OneCubeRoot(5, 197, K(44)); }
    else if t == 45 { OnePrimeOfANumber(t, p, 199); OneCubeRoot(5, 199, K(45)); }
    else if t == 46 { OnePrimeOfANumber(t, p, 211); OneCubeRoot(5, 211, K(46)); }
    else { OnePrimeOfANumber(t, p, 223); OneCubeRoot(6, 223, K(47)); }
  }

  lemma Rows3(t: nat, p: nat)
    requires 48 <= t < 64 && IsPrimeNumber(t, p)
    ensures CubeRootBits(p, K(t))
  {
    hide IsPrimeNumber, CubeRootBits;
    Primes6();
    Primes7();
    if t == 48 { OnePrimeOfANumber(t, p, 227); OneCubeRoot(6, 227, K(48)); }
    else if t == 49 { OnePrimeOfANumber(t, p, 229); OneCubeRoot(6, 229, K(49)); }
    else if t == 50 { OnePrimeOfANumber(t, p, 233); OneCubeRoot(6, 233, K(50)); }
    else if t == 51 { OnePrimeOfANumber(t, p, 239); OneCubeRoot(6, 239, K(51)); }
    else if t == 52 { OnePrimeOfANumber(t, p, 241); OneCubeRoot(6, 241, K(52)); }
    else if t == 53 { OnePrimeOfANumber(t, p, 251); OneCubeRoot(6, 251, K(53)); }
    else if t == 54 { OnePrimeOfANumber(t, p, 257); OneCubeRoot(6, 257, K(54)); }
    else if t == 55 { OnePrimeOfANumber(t, p, 263); OneCubeRoot(6, 263, K(55)); }
    else if t == 56 { OnePrimeOfANumber(t, p, 269); OneCubeRoot(6, 269, K(56)); }
    else if t == 57 { OnePrimeOfANumber(t, p, 271); OneCubeRoot(6, 271, K(57)); }
    else if t == 58 { OnePrimeOfANumber(t, p, 277); OneCubeRoot(6, 277, K(58)); }
    else if t == 59 { OnePrimeOfANumber(t, p, 281); OneCubeRoot(6, 281, K(59)); }
    else if t == 60 { OnePrimeOfANumber(t, p, 283); OneCubeRoot(6, 283, K(60)); }
    else if t == 61 { OnePrimeOfANumber(t, p, 293); OneCubeRoot(6, 293, K(61)); }
    else if t == 62 { OnePrimeOfANumber(t, p, 307); OneCubeRoot(6, 307, K(62)); }
    else { OnePrimeOfANumber(t, p, 311); OneCubeRoot(6, 311, K(63)); }
  }

  /** The round constant `t` has the first 32 bits of the fractional part of the cube root of the prime that has `t`
      primes below it. */
  lemma ConstantsAreCubeRoots(t: nat, p: nat, c: nat)
    requires t < 64 && Prime(p) && PrimesBelow(p) == t && c * c * c <= p < (c + 1) * (c + 1) * (c + 1)
    ensures var n := c * TWO_TO_THE_32 + K(t) as nat;
            n * n * n <= p * TWO_TO_THE_96 < (n + 1) * (n + 1) * (n + 1)
  {
    hide Prime, PrimesBelow, K;
    if t < 16 { Rows0(t, p); }
    else if t < 32 { Rows1(t, p); }
    else if t < 48 { Rows2(t, p); }
    else { Rows3(t, p); }
    assert IsCubeRoot(c, p);
  }

  lemma InitialRow(t: nat, p: nat)
    requires t < 8 && IsPrimeNumber(t, p)
    ensures SquareRootBits(p, InitialState()[t])
  {
    hide IsPrimeNumber, SquareRootBits;
    Primes0();
    if t == 0 { OnePrimeOfANumber(t, p, 2); OneSquareRoot(1, 2, InitialState()[0]); }
    else if t == 1 { OnePrimeOfANumber(t, p, 3); OneSquareRoot(1, 3, InitialState()[1]); }
    else if t == 2 { OnePrimeOfANumber(t, p, 5); OneSquareRoot(2, 5, InitialState()[2]); }
    else if t == 3 { OnePrimeOfANumber(t, p, 7); OneSquareRoot(2, 7, InitialState()[3]); }
    else if t == 4 { OnePrimeOfANumber(t, p, 11); OneSquareRoot(3, 11, InitialState()[4]); }
    else if t == 5 { OnePrimeOfANumber(t, p, 13); OneSquareRoot(3, 13, InitialState()[5]); }
    else if t == 6 { OnePrimeOfANumber(t, p, 17); OneSquareRoot(4, 17, InitialState()[6]); }
    else { OnePrimeOfANumber(t, p, 19); OneSquareRoot(4, 19, InitialState()[7]); }
  }

  /** The word `t` of the initial hash value has those of the square root. */
  lemma InitialStateIsSquareRoots(t: nat, p: nat, c: nat)
    requires t < 8 && Prime(p) && PrimesBelow(p) == t && c * c <= p < (c + 1) * (c + 1)
    ensures var n := c * TWO_TO_THE_32 + InitialState()[t] as nat;
            n * n <= p * TWO_TO_THE_64 < (n + 1) * (n + 1)
  {
    hide Prime, PrimesBelow, InitialState;
    InitialRow(t, p);
    assert IsSquareRoot(c, p);
  }
}
