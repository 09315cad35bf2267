/** The substitution table of os/lib/aes-128.c against its definition in section 5.1.1 of FIPS 197: an affine
    map of the inverse in GF(2^8). */
module AesSbox {
  import opened ByteStrings
  import opened Aes128

  // ---------------------------------------------------------------------------------------------
  // Multiplication in GF(2^8)

  /** The sum of the multiples of `a` by the `n` low powers of two that are in `b`, section 4.2.1. */
  function Combined(a: byte, b: byte, n: nat): byte
    decreases n
  {
    if n == 0 then 0 else Plus(if b & 1 != 0 then a else 0, Combined(Times2(a), b >> 1, n - 1))
  }

  function Times(a: byte, b: byte): byte {
    Combined(a, b, 8)
  }

  lemma Times2OfNothing()
    ensures Times2(0) == 0
  {
  }

  lemma LowBitOfSum(b: byte, c: byte)
    ensures (Plus(b, c) & 1 != 0) == ((b & 1 != 0) != (c & 1 != 0))
    ensures Plus(b, c) >> 1 == Plus(b >> 1, c >> 1)
  {
  }

  lemma {:induction false} RightLinear(a: byte, b: byte, c: byte, n: nat)
    ensures Combined(a, Plus(b, c), n) == Plus(Combined(a, b, n), Combined(a, c, n))
    decreases n
  {
    hide Plus, Times2;
    if n == 0 {
      PlusNothing(0);
    } else {
      LowBitOfSum(b, c);
      RightLinear(Times2(a), b >> 1, c >> 1, n - 1);
      Interchange(if b & 1 != 0 then a else 0, Combined(Times2(a), b >> 1, n - 1),
                  if c & 1 != 0 then a else 0, Combined(Times2(a), c >> 1, n - 1));
      PlusNothing(a);
      PlusNothing(0);
    }
  }

  lemma {:induction false} LeftLinear(a: byte, b: byte, c: byte, n: nat)
    ensures Combined(Plus(a, b), c, n) == Plus(Combined(a, c, n), Combined(b, c, n))
    decreases n
  {
    hide Plus, Times2;
    if n == 0 {
      PlusNothing(0);
    } else {
      Times2IsLinear(a, b);
      LeftLinear(Times2(a), Times2(b), c >> 1, n - 1);
      Interchange(if c & 1 != 0 then a else 0, Combined(Times2(a), c >> 1, n - 1),
                  if c & 1 != 0 then b else 0, Combined(Times2(b), c >> 1, n - 1));
      PlusNothing(0);
    }
  }

  lemma {:induction false} DoubleLeft(a: byte, b: byte, n: nat)
    ensures Combined(Times2(a), b, n) == Times2(Combined(a, b, n))
    decreases n
  {
    hide Plus, Times2;
    Times2OfNothing();
    if n > 0 {
      DoubleLeft(Times2(a), b >> 1, n - 1);
      Times2IsLinear(if b & 1 != 0 then a else 0, Combined(Times2(a), b >> 1, n - 1));
    }
  }

  /** High bits that are zero add nothing. */
  lemma {:induction false} NoHighBits(a: byte, b: byte, n: nat)
    requires b == 0
    ensures Combined(a, b, n) == 0
    decreases n
  {
    hide Times2;
    if n > 0 {
      NoHighBits(Times2(a), 0, n - 1);
    }
  }

  lemma {:induction false} OneBitLess(a: byte, b: byte, n: nat)
    requires n <= 7 && b >> n == 0
    ensures Combined(a, b, n + 1) == Combined(a, b, n)
    decreases n
  {
    hide Plus, Times2;
    if n == 0 {
      NoHighBits(a, b, 1);
      NoHighBits(a, b, 0);
    } else {
      OneBitLess(Times2(a), b >> 1, n - 1);
    }
  }

  lemma DoubledSmall(b: byte)
    requires b < 0x80
    ensures Times2(b) & 1 == 0 && Times2(b) >> 1 == b && b >> 7 == 0
  {
  }

  lemma DoubleSmallRight(a: byte, b: byte)
    requires b < 0x80
    ensures Times(a, Times2(b)) == Times2(Times(a, b))
  {
    hide Plus, Times2;
    DoubledSmall(b);
    PlusNothing(Combined(Times2(a), b, 7));
    OneBitLess(Times2(a), b, 7);
    DoubleLeft(a, b, 8);
  }

  lemma ShiftOut(a: byte)
    ensures Times(a, 0x80) == Times2(Times2(Times2(Times2(Times2(Times2(Times2(a)))))))
  {
    hide Plus, Times2;
    var a1, a2, a3 := Times2(a), Times2(Times2(a)), Times2(Times2(Times2(a)));
    var a4, a5, a6 := Times2(a3), Times2(Times2(a3)), Times2(Times2(Times2(a3)));
    var a7 := Times2(a6);
    PlusNothing(a7);
    PlusNothing(0);
    assert Combined(a7, 1, 1) == Plus(a7, Combined(Times2(a7), 0, 0));
    assert Combined(a6, 2, 2) == Plus(0, Combined(a7, 1, 1));
    assert Combined(a5, 4, 3) == Plus(0, Combined(a6, 2, 2));
    assert Combined(a4, 8, 4) == Plus(0, Combined(a5, 4, 3));
    assert Combined(a3, 16, 5) == Plus(0, Combined(a4, 8, 4));
    assert Combined(a2, 32, 6) == Plus(0, Combined(a3, 16, 5));
    assert Combined(a1, 64, 7) == Plus(0, Combined(a2, 32, 6));
    assert Combined(a, 128, 8) == Plus(0, Combined(a1, 64, 7));
  }

  lemma TimesPolynomial(a: byte)
    ensures Times(a, 0x1b) == Plus(a, Plus(Times2(a), Plus(Times2(Times4(a)), Times2(Times8(a)))))
  {
    hide Plus, Times2;
    var a1, a2, a3 := Times2(a), Times4(a), Times8(a);
    var a4 := Times2(a3);
    var a5 := Times2(a4);
    PlusNothing(a4);
    PlusNothing(a3);
    PlusNothing(0);
    NoHighBits(a5, 0, 3);
    PlusNothing(Plus(a3, a4));
    assert Combined(a4, 1, 4) == Plus(a4, Combined(a5, 0, 3));
    assert Combined(a3, 3, 5) == Plus(a3, Combined(a4, 1, 4));
    assert Combined(a2, 6, 6) == Plus(0, Combined(a3, 3, 5));
    assert Combined(a1, 13, 7) == Plus(a1, Combined(a2, 6, 6));
    assert Combined(a, 27, 8) == Plus(a, Combined(a1, 13, 7));
  }

  /** The eighth power of the indeterminate, reduced. */
  lemma Reduction(a: byte)
    ensures var power := Times2(Times2(Times2(Times2(Times2(Times2(Times2(Times2(a))))))));
            power <= Plus(a, Plus(Times2(a), Plus(Times8(a), Times2(Times8(a))))) <= power
  {
  }

  lemma TopBit(b: byte)
    requires b >= 0x80
    ensures b & 0x7f < 0x80 && Plus(b & 0x7f, 0x80) == b && Times2(0x80) == 0x1b
  {
  }

  lemma DoubleRight(a: byte, b: byte)
    ensures Times(a, Times2(b)) == Times2(Times(a, b))
  {
    hide Plus, Times2, Combined;
    if b < 0x80 {
      DoubleSmallRight(a, b);
    } else {
      var low := b & 0x7f;
      TopBit(b);
      Times2IsLinear(low, 0x80);
      DoubleSmallRight(a, low);
      RightLinear(a, Times2(low), 0x1b, 8);
      RightLinear(a, low, 0x80, 8);
      Times2IsLinear(Times(a, low), Times(a, 0x80));
      ShiftOut(a);
      TimesPolynomial(a);
      Reduction(a);
    }
  }

  /** A factor of {03} moves from one side of a product to the other. */
  lemma ThreeMoves(a: byte, b: byte)
    ensures Times(Times3(a), b) == Times(a, Times3(b))
  {
    hide Plus, Times2, Combined;
    LeftLinear(Times2(a), a, b, 8);
    RightLinear(a, Times2(b), b, 8);
    DoubleLeft(a, b, 8);
    DoubleRight(a, b);
  }

  // ---------------------------------------------------------------------------------------------
  // The powers of {03}

  /** The discrete logarithm to the base {03}, sixteen entries a row; that of 0 has no meaning. */
  function LogRow(r: byte): bv128 {
    if r == 0x0 then 0x0000190132021ac64bc71b6833eedf03 else
    if r == 0x1 then 0x6404e00e348d81ef4c7108c8f8691cc1 else
    if r == 0x2 then 0x7dc21db5f9b9276a4de4a6729ac90978 else
    if r == 0x3 then 0x652f8a05210fe12412f082453593da8e else
    if r == 0x4 then 0x968fdbbd36d0ce94135cd2f140468338 else
    if r == 0x5 then 0x66ddfd30bf068b62b325e29822889110 else
    if r == 0x6 then 0x7e6e48c3a3b61e423a6b2854fa853dba else
    if r == 0x7 then 0x2b790a159b9f5eca4ed4ace5f373a757 else
    if r == 0x8 then 0xaf58a850f4ead6744faee9d5e7e6ade8 else
    if r == 0x9 then 0x2cd7757aeb160bf559cb5fb09ca951a0 else
    if r == 0xa then 0x7f0cf66f17c449ecd8431f2da4767bb7 else
    if r == 0xb then 0xccbb3e5afb60b1863b52a16caa55299d else
    if r == 0xc then 0x97b2879061bedcfcbc95cfcd373f5bd1 else
    if r == 0xd then 0x5339843c41a26d47142a9e5d56f2d3ab else
    if r == 0xe then 0x441192d923202e89b47cb8267799e3a5 else
    0x674aeddec531fe180d638c80c0f77007
  }

  function Log(x: byte): byte { Entry(LogRow(x >> 4), x & 15) }

  lemma FirstLogQuarter(x: byte)
    requires x != 0 && x < 0x40
    ensures Times3(x) != 0 && Log(Times3(x)) == if Log(x) == 254 then 0 else Log(x) + 1
  {
  }

  lemma SecondLogQuarter(x: byte)
    requires x != 0 && 0x40 <= x < 0x80
    ensures Times3(x) != 0 && Log(Times3(x)) == if Log(x) == 254 then 0 else Log(x) + 1
  {
  }

  lemma ThirdLogQuarter(x: byte)
    requires x != 0 && 0x80 <= x < 0xc0
    ensures Times3(x) != 0 && Log(Times3(x)) == if Log(x) == 254 then 0 else Log(x) + 1
  {
  }

  lemma FourthLogQuarter(x: byte)
    requires x != 0 && 0xc0 <= x
    ensures Times3(x) != 0 && Log(Times3(x)) == if Log(x) == 254 then 0 else Log(x) + 1
  {
  }

  lemma LogOfTriple(x: byte)
    requires x != 0
    ensures Times3(x) != 0 && Log(Times3(x)) == if Log(x) == 254 then 0 else Log(x) + 1
  {
    hide Log, Times3;
    if x < 0x40 {
      FirstLogQuarter(x);
    } else if x < 0x80 {
      SecondLogQuarter(x);
    } else if x < 0xc0 {
      ThirdLogQuarter(x);
    } else {
      FourthLogQuarter(x);
    }
  }

  /** Only 1 is the power with exponent 0. */
  lemma LogOfOne(x: byte)
    requires x != 0 && Log(x) == 0
    ensures x == 1
  {
  }

  /** A third: the product with {f6}. */
  function Third(x: byte): byte {
    Plus(Plus(Times2(x), Times4(x)),
         Plus(Plus(Times2(Times8(x)), Times4(Times8(x))), Plus(Times8(Times8(x)), Times2(Times8(Times8(x))))))
  }

  lemma ThirdTimesThree(x: byte)
    ensures Times3(Third(x)) == x && (x != 0 ==> Third(x) != 0)
  {
  }

  // ---------------------------------------------------------------------------------------------
  // The table

  function RotateLeft(x: byte, n: nat): byte
    requires 0 < n < 8
  {
    (x << n) | (x >> (8 - n))
  }

  /** The affine map of equation (5.1). */
  function Affine(b: byte): byte {
    b ^ RotateLeft(b, 1) ^ RotateLeft(b, 2) ^ RotateLeft(b, 3) ^ RotateLeft(b, 4) ^ 0x63
  }

  /** The affine map undone. */
  function InvAffine(b: byte): byte {
    RotateLeft(b, 1) ^ RotateLeft(b, 3) ^ RotateLeft(b, 6) ^ 0x05
  }

  lemma AffineIsInvertible(b: byte)
    ensures Affine(InvAffine(b)) == b
  {
  }

  /** What the affine map takes to the table's entry. */
  function Inverse(x: byte): byte { InvAffine(Sbox(x)) }

  // Two rows of the table each, as two inequalities: this spares the solver the elimination of an equation.

  lemma FirstInverses(x: byte)
    requires x != 0 && x < 0x20
    ensures Inverse(x) <= Times3(Inverse(Times3(x))) <= Inverse(x)
  {
  }

  lemma SecondInverses(x: byte)
    requires 0x20 <= x < 0x40
    ensures Inverse(x) <= Times3(Inverse(Times3(x))) <= Inverse(x)
  {
  }

  lemma ThirdInverses(x: byte)
    requires 0x40 <= x < 0x60
    ensures Inverse(x) <= Times3(Inverse(Times3(x))) <= Inverse(x)
  {
  }

  lemma FourthInverses(x: byte)
    requires 0x60 <= x < 0x80
    ensures Inverse(x) <= Times3(Inverse(Times3(x))) <= Inverse(x)
  {
  }

  lemma FifthInverses(x: byte)
    requires 0x80 <= x < 0xa0
    ensures Inverse(x) <= Times3(Inverse(Times3(x))) <= Inverse(x)
  {
  }

  lemma SixthInverses(x: byte)
    requires 0xa0 <= x < 0xc0
    ensures Inverse(x) <= Times3(Inverse(Times3(x))) <= Inverse(x)
  {
  }

  lemma SeventhInverses(x: byte)
    requires 0xc0 <= x < 0xe0
    ensures Inverse(x) <= Times3(Inverse(Times3(x))) <= Inverse(x)
  {
  }

  lemma EighthInverses(x: byte)
    requires 0xe0 <= x
    ensures Inverse(x) <= Times3(Inverse(Times3(x))) <= Inverse(x)
  {
  }

  lemma InverseOfTriple(x: byte)
    requires x != 0
    ensures Times3(Inverse(Times3(x))) == Inverse(x)
  {
    hide Inverse, Times3;
    if x < 0x20 {
      FirstInverses(x);
    } else if x < 0x40 {
      SecondInverses(x);
    } else if x < 0x60 {
      ThirdInverses(x);
    } else if x < 0x80 {
      FourthInverses(x);
    } else if x < 0xa0 {
      FifthInverses(x);
    } else if x < 0xc0 {
      SixthInverses(x);
    } else if x < 0xe0 {
      SeventhInverses(x);
    } else {
      EighthInverses(x);
    }
  }

  lemma EndsOfTable()
    ensures Inverse(0) == 0 && Inverse(1) == 1
  {
  }

  lemma OneTimesOne()
    ensures Times(1, 1) == 1
  {
    hide Times2;
    NoHighBits(Times2(1), 0, 7);
    assert Combined(1, 1, 8) == Plus(1, Combined(Times2(1), 0, 7));
    PlusNothing(1);
  }

  /** From one power of {03} to the next, the product of an element and its inverse stays 1. */
  lemma {:induction false} ProductWithInverse(x: byte)
    requires x != 0
    ensures Times(x, Inverse(x)) == 1
    decreases Log(x) as nat
  {
    hide Log, Inverse, Third, Times3, Times;
    if x == 1 {
      EndsOfTable();
      OneTimesOne();
    } else {
      var y := Third(x);
      ThirdTimesThree(x);
      LogOfTriple(y);
      LogIsNotZero(x);
      ProductWithInverse(y);
      InverseOfTriple(y);
      ThreeMoves(y, Inverse(x));
    }
  }

  lemma LogIsNotZero(x: byte)
    requires x != 0 && x != 1
    ensures Log(x) != 0
  {
    hide Log;
    if Log(x) == 0 {
      LogOfOne(x);
    }
  }

  /** Each entry is the affine map of the multiplicative inverse, with 0 for that of 0. */
  lemma SboxIsStandard(x: byte)
    ensures Sbox(x) == Affine(Inverse(x))
    ensures if x == 0 then Inverse(x) == 0 else Times(x, Inverse(x)) == 1
  {
    hide Sbox, Affine, InvAffine, Times;
    AffineIsInvertible(Sbox(x));
    EndsOfTable();
    if x != 0 {
      ProductWithInverse(x);
    }
  }
}
