/** AES-128: os/lib/aes-128.c against sections 4.2, 5.1, 5.2 and 5.3 of FIPS 197. */
module Aes128 {
  import opened ByteStrings

  const AES_BLOCK_SIZE := 16

  /** The state of section 3.4, column after column: row `r` of column `c` is byte `r + 4 * c`. */
  type Block = s: seq<byte> | |s| == AES_BLOCK_SIZE witness Zeros(16)

  // ---------------------------------------------------------------------------------------------
  // The substitution tables, sixteen entries a row

  /** By halves: the shifts are by constants. */
  function Entry(row: bv128, column: byte): byte
    requires column < 16
  {
    var half: bv64 := if column & 8 == 0 then (row >> 64) as bv64 else (row & 0xffff_ffff_ffff_ffff) as bv64;
    var quarter: bv32 := if column & 4 == 0 then (half >> 32) as bv32 else (half & 0xffff_ffff) as bv32;
    var pair: bv16 := if column & 2 == 0 then (quarter >> 16) as bv16 else (quarter & 0xffff) as bv16;
    if column & 1 == 0 then (pair >> 8) as byte else (pair & 0xff) as byte
  }

  function SboxRow(r: byte): bv128 {
    if r == 0x0 then 0x637c777bf26b6fc53001672bfed7ab76 else
    if r == 0x1 then 0xca82c97dfa5947f0add4a2af9ca472c0 else
    if r == 0x2 then 0xb7fd9326363ff7cc34a5e5f171d83115 else
    if r == 0x3 then 0x04c723c31896059a071280e2eb27b275 else
    if r == 0x4 then 0x09832c1a1b6e5aa0523bd6b329e32f84 else
    if r == 0x5 then 0x53d100ed20fcb15b6acbbe394a4c58cf else
    if r == 0x6 then 0xd0efaafb434d338545f9027f503c9fa8 else
    if r == 0x7 then 0x51a3408f929d38f5bcb6da2110fff3d2 else
    if r == 0x8 then 0xcd0c13ec5f974417c4a77e3d645d1973 else
    if r == 0x9 then 0x60814fdc222a908846eeb814de5e0bdb else
    if r == 0xa then 0xe0323a0a4906245cc2d3ac629195e479 else
    if r == 0xb then 0xe7c8376d8dd54ea96c56f4ea657aae08 else
    if r == 0xc then 0xba78252e1ca6b4c6e8dd741f4bbd8b8a else
    if r == 0xd then 0x703eb5664803f60e613557b986c11d9e else
    if r == 0xe then 0xe1f8981169d98e949b1e87e9ce5528df else
    0x8ca1890dbfe6426841992d0fb054bb16
  }

  function InvSboxRow(r: byte): bv128 {
    if r == 0x0 then 0x52096ad53036a538bf40a39e81f3d7fb else
    if r == 0x1 then 0x7ce339829b2fff87348e4344c4dee9cb else
    if r == 0x2 then 0x547b9432a6c2233dee4c950b42fac34e else
    if r == 0x3 then 0x082ea16628d924b2765ba2496d8bd125 else
    if r == 0x4 then 0x72f8f66486689816d4a45ccc5d65b692 else
    if r == 0x5 then 0x6c704850fdedb9da5e154657a78d9d84 else
    if r == 0x6 then 0x90d8ab008cbcd30af7e45805b8b34506 else
    if r == 0x7 then 0xd02c1e8fca3f0f02c1afbd0301138a6b else
    if r == 0x8 then 0x3a9111414f67dcea97f2cfcef0b4e673 else
    if r == 0x9 then 0x96ac7422e7ad3585e2f937e81c75df6e else
    if r == 0xa then 0x47f11a711d29c5896fb7620eaa18be1b else
    if r == 0xb then 0xfc563e4bc6d279209adbc0fe78cd5af4 else
    if r == 0xc then 0x1fdda8338807c731b11210592780ec5f else
    if r == 0xd then 0x60517fa919b54a0d2de57a9f93c99cef else
    if r == 0xe then 0xa0e03b4dae2af5b0c8ebbb3c83539961 else
    0x172b047eba77d626e169146355210c7d
  }

  function Sbox(x: byte): byte { Entry(SboxRow(x >> 4), x & 15) }

  function InvSbox(x: byte): byte { Entry(InvSboxRow(x >> 4), x & 15) }

  lemma FirstQuarter(x: byte)
    requires x < 0x40
    ensures InvSbox(Sbox(x)) == x
  {
  }

  lemma SecondQuarter(x: byte)
    requires 0x40 <= x < 0x80
    ensures InvSbox(Sbox(x)) == x
  {
  }

  lemma ThirdQuarter(x: byte)
    requires 0x80 <= x < 0xc0
    ensures InvSbox(Sbox(x)) == x
  {
  }

  lemma FourthQuarter(x: byte)
    requires 0xc0 <= x
    ensures InvSbox(Sbox(x)) == x
  {
  }

  /** The substitution of the cipher is one-to-one. */
  lemma SboxIsInvertible(x: byte)
    ensures InvSbox(Sbox(x)) == x
  {
    hide Sbox, InvSbox;
    if x < 0x40 {
      FirstQuarter(x);
    } else if x < 0x80 {
      SecondQuarter(x);
    } else if x < 0xc0 {
      ThirdQuarter(x);
    } else {
      FourthQuarter(x);
    }
  }

  // ---------------------------------------------------------------------------------------------
  // GF(2^8)

  function Sum(a: byte, b: byte, c: byte, d: byte): byte { Plus(Plus(a, b), Plus(c, d)) }

  /** Multiplication by {02}, section 4.2.1. */
  function Times2(b: byte): byte {
    if b & 0x80 != 0 then (b << 1) ^ 0x1b else b << 1
  }

  function Times3(b: byte): byte { Plus(Times2(b), b) }

  function Times4(b: byte): byte { Times2(Times2(b)) }

  function Times8(b: byte): byte { Times2(Times4(b)) }

  function Times9(b: byte): byte { Plus(Times8(b), b) }

  function Times11(b: byte): byte { Plus(Times8(b), Times3(b)) }

  function Times13(b: byte): byte { Plus(Times8(b), Plus(Times4(b), b)) }

  function Times14(b: byte): byte { Plus(Times8(b), Plus(Times4(b), Times2(b))) }

  /** `galois_mul2` */
  function GaloisMul2(value: byte): byte {
    (value << 1) ^ ((value >> 7) * 0x1b)
  }

  lemma GaloisMul2IsTimes2(b: byte)
    ensures GaloisMul2(b) == Times2(b)
  {
  }

  // ---------------------------------------------------------------------------------------------
  // The cipher, section 5.1

  function SubBytes(s: Block): Block {
    seq(16, i requires 0 <= i < 16 => Sbox(s[i]))
  }

  /** The byte of row `i % 4` that moves to column `i / 4`. */
  function ShiftSource(i: nat): (j: nat)
    requires i < 16
    ensures j < 16
  {
    i % 4 + 4 * ((i / 4 + i % 4) % 4)
  }

  function ShiftRows(s: Block): Block {
    seq(16, i requires 0 <= i < 16 => s[ShiftSource(i)])
  }

  /** A row of the matrix of equation (5.6) times a column. */
  function MixedByte(a: byte, b: byte, c: byte, d: byte): byte {
    Sum(Times2(a), Times3(b), c, d)
  }

  function MixColumn(a: byte, b: byte, c: byte, d: byte): (col: seq<byte>)
    ensures |col| == 4
  {
    [MixedByte(a, b, c, d), MixedByte(b, c, d, a), MixedByte(c, d, a, b), MixedByte(d, a, b, c)]
  }

  function MixColumns(s: Block): Block {
    MixColumn(s[0], s[1], s[2], s[3]) + MixColumn(s[4], s[5], s[6], s[7]) +
    MixColumn(s[8], s[9], s[10], s[11]) + MixColumn(s[12], s[13], s[14], s[15])
  }

  function Round(roundKey: Block, s: Block, last: bool): Block {
    var t := ShiftRows(SubBytes(s));
    Xor(if last then t else MixColumns(t), roundKey)
  }

  /** The state after round `n`. */
  function Rounds(key: Block, s: Block, n: nat): Block
    requires n <= 10
  {
    if n == 0 then Xor(s, RoundKey(key, 0)) else Round(RoundKey(key, n), Rounds(key, s, n - 1), n == 10)
  }

  function Cipher(key: Block, s: Block): Block {
    Rounds(key, s, 10)
  }

  // ---------------------------------------------------------------------------------------------
  // The key expansion, section 5.2

  function Rcon(i: nat): byte
    requires i >= 1
  {
    if i == 1 then 1 else Times2(Rcon(i - 1))
  }

  /** SubWord(RotWord(temp)) xor Rcon */
  function KeyCore(temp: seq<byte>, rcon: byte): (w: seq<byte>)
    requires |temp| == 4
    ensures |w| == 4
  {
    [Plus(Sbox(temp[1]), rcon), Sbox(temp[2]), Sbox(temp[3]), Sbox(temp[0])]
  }

  /** The word that is added to the one four words back. */
  function Feed(key: Block, i: nat): (w: seq<byte>)
    requires 4 <= i
    ensures |w| == 4
    decreases i, 0
  {
    var temp := KeyWord(key, i - 1);
    if i % 4 == 0 then KeyCore(temp, Rcon(i / 4)) else temp
  }

  function KeyWord(key: Block, i: nat): (w: seq<byte>)
    ensures |w| == 4
    decreases i, 1
  {
    if i < 4 then key[4 * i..4 * i + 4] else Xor(KeyWord(key, i - 4), Feed(key, i))
  }

  function RoundKey(key: Block, n: nat): Block {
    KeyWord(key, 4 * n) + KeyWord(key, 4 * n + 1) + KeyWord(key, 4 * n + 2) + KeyWord(key, 4 * n + 3)
  }

  // ---------------------------------------------------------------------------------------------
  // The inverse cipher, section 5.3

  function InvSubBytes(s: Block): Block {
    seq(16, i requires 0 <= i < 16 => InvSbox(s[i]))
  }

  function InvShiftSource(i: nat): (j: nat)
    requires i < 16
    ensures j < 16
  {
    i % 4 + 4 * ((i / 4 + 4 - i % 4) % 4)
  }

  function InvShiftRows(s: Block): Block {
    seq(16, i requires 0 <= i < 16 => s[InvShiftSource(i)])
  }

  /** A row of the matrix of equation (5.10) times a column. */
  function UnmixedByte(a: byte, b: byte, c: byte, d: byte): byte {
    Sum(Times14(a), Times11(b), Times13(c), Times9(d))
  }

  function InvMixColumn(a: byte, b: byte, c: byte, d: byte): (col: seq<byte>)
    ensures |col| == 4
  {
    [UnmixedByte(a, b, c, d), UnmixedByte(b, c, d, a), UnmixedByte(c, d, a, b), UnmixedByte(d, a, b, c)]
  }

  function InvMixColumns(s: Block): Block {
    InvMixColumn(s[0], s[1], s[2], s[3]) + InvMixColumn(s[4], s[5], s[6], s[7]) +
    InvMixColumn(s[8], s[9], s[10], s[11]) + InvMixColumn(s[12], s[13], s[14], s[15])
  }

  function InvRound(roundKey: Block, s: Block, last: bool): Block {
    var t: Block := Xor(s, roundKey);
    InvSubBytes(InvShiftRows(if last then t else InvMixColumns(t)))
  }

  function InvRounds(key: Block, s: Block, n: nat): Block
    requires n <= 10
    decreases n
  {
    if n == 0 then Xor(s, RoundKey(key, 0)) else InvRounds(key, InvRound(RoundKey(key, n), s, n == 10), n - 1)
  }

  function InvCipher(key: Block, s: Block): Block {
    InvRounds(key, s, 10)
  }

  lemma XorTwice(a: seq<byte>, b: seq<byte>)
    requires |a| == |b|
    ensures Xor(Xor(a, b), b) == a
  {
    hide Plus;
    forall i | 0 <= i < |a|
      ensures Xor(Xor(a, b), b)[i] == a[i]
    {
      XorByteTwice(a[i], b[i]);
    }
  }

  lemma XorByteTwice(x: byte, y: byte)
    ensures Plus(Plus(x, y), y) == x
  {
    hide Plus;
    PlusAssociates(x, y, y);
    PlusNothing(x);
    PlusNothing(y);
  }

  lemma SubBytesIsInvertible(s: Block)
    ensures InvSubBytes(SubBytes(s)) == s
  {
    hide Sbox, InvSbox;
    forall i | 0 <= i < 16
      ensures InvSubBytes(SubBytes(s))[i] == s[i]
    {
      SboxIsInvertible(s[i]);
    }
  }

  lemma ShiftRowsIsInvertible(s: Block)
    ensures InvShiftRows(ShiftRows(s)) == s
  {
    forall i: nat | i < 16
      ensures InvShiftRows(ShiftRows(s))[i] == s[i]
    {
      ShiftBack(i);
    }
  }

  lemma ShiftBack(i: nat)
    requires i < 16
    ensures ShiftSource(InvShiftSource(i)) == i
  {
    hide ShiftSource, InvShiftSource;
    InvShiftedFrom(i);
    ShiftedFrom(InvShiftSource(i));
  }

  lemma ShiftedFrom(i: nat)
    requires i < 16
    ensures ShiftSource(i) == [0, 5, 10, 15, 4, 9, 14, 3, 8, 13, 2, 7, 12, 1, 6, 11][i]
  {
  }

  lemma InvShiftedFrom(i: nat)
    requires i < 16
    ensures InvShiftSource(i) == [0, 13, 10, 7, 4, 1, 14, 11, 8, 5, 2, 15, 12, 9, 6, 3][i]
  {
  }

  lemma GaloisMul2IsLinear(a: byte, b: byte)
    ensures GaloisMul2(a ^ b) == GaloisMul2(a) ^ GaloisMul2(b)
  {
  }

  lemma Times2IsLinear(a: byte, b: byte)
    ensures Times2(Plus(a, b)) == Plus(Times2(a), Times2(b))
  {
    hide Times2, GaloisMul2;
    GaloisMul2IsTimes2(a);
    GaloisMul2IsTimes2(b);
    GaloisMul2IsTimes2(Plus(a, b));
    GaloisMul2IsLinear(a, b);
  }

  lemma Interchange(a: byte, b: byte, c: byte, d: byte)
    ensures Plus(Plus(a, b), Plus(c, d)) == Plus(Plus(a, c), Plus(b, d))
  {
    hide Plus;
    PlusAssociates(a, b, Plus(c, d));
    PlusAssociates(b, c, d);
    PlusCommutes(b, c);
    PlusAssociates(c, b, d);
    PlusAssociates(a, c, Plus(b, d));
  }

  /** The entries of the product of the two matrices; the chained equations spare the solver an elimination. */
  lemma InverseDiagonal(a: byte)
    ensures a == Sum(Times14(Times2(a)), Times11(a), Times13(a), Times9(Times3(a))) == Plus(a, 0)
  {
  }

  lemma FirstZero(a: byte)
    ensures 0 == Sum(Times14(Times3(a)), Times11(Times2(a)), Times13(a), Times9(a)) == Plus(a, a)
  {
  }

  lemma SecondZero(a: byte)
    ensures 0 == Sum(Times14(a), Times11(Times3(a)), Times13(Times2(a)), Times9(a)) == Plus(a, a)
  {
  }

  lemma ThirdZero(a: byte)
    ensures 0 == Sum(Times14(a), Times11(a), Times13(Times3(a)), Times9(Times2(a))) == Plus(a, a)
  {
  }

  lemma ProductsAreLinear(a: byte, b: byte)
    ensures Times14(Plus(a, b)) == Plus(Times14(a), Times14(b)) && Times11(Plus(a, b)) == Plus(Times11(a), Times11(b))
    ensures Times13(Plus(a, b)) == Plus(Times13(a), Times13(b)) && Times9(Plus(a, b)) == Plus(Times9(a), Times9(b))
  {
    hide Plus, Times2;
    var a2, a4, a8, b2, b4, b8 := Times2(a), Times4(a), Times8(a), Times2(b), Times4(b), Times8(b);
    Times2IsLinear(a, b);
    Times2IsLinear(a2, b2);
    Times2IsLinear(a4, b4);
    Interchange(a2, b2, a, b);
    Interchange(a4, b4, a, b);
    Interchange(a4, b4, a2, b2);
    Interchange(a8, b8, a, b);
    Interchange(a8, b8, Times3(a), Times3(b));
    Interchange(a8, b8, Plus(a4, a), Plus(b4, b));
    Interchange(a8, b8, Plus(a4, a2), Plus(b4, b2));
  }

  lemma SumsAreLinear(a: byte, b: byte, c: byte, d: byte)
    ensures Times14(Sum(a, b, c, d)) == Sum(Times14(a), Times14(b), Times14(c), Times14(d))
    ensures Times11(Sum(a, b, c, d)) == Sum(Times11(a), Times11(b), Times11(c), Times11(d))
    ensures Times13(Sum(a, b, c, d)) == Sum(Times13(a), Times13(b), Times13(c), Times13(d))
    ensures Times9(Sum(a, b, c, d)) == Sum(Times9(a), Times9(b), Times9(c), Times9(d))
  {
    hide Plus, Times14, Times11, Times13, Times9;
    ProductsAreLinear(a, b);
    ProductsAreLinear(c, d);
    ProductsAreLinear(Plus(a, b), Plus(c, d));
  }

  lemma SumsInterchange(a: byte, b: byte, c: byte, d: byte, e: byte, f: byte, g: byte, h: byte)
    ensures Plus(Sum(a, b, c, d), Sum(e, f, g, h)) == Sum(Plus(a, e), Plus(b, f), Plus(c, g), Plus(d, h))
  {
    hide Plus;
    Interchange(Plus(a, b), Plus(c, d), Plus(e, f), Plus(g, h));
    Interchange(a, b, e, f);
    Interchange(c, d, g, h);
  }

  lemma SumRotates(a: byte, b: byte, c: byte, d: byte)
    ensures Sum(a, b, c, d) == Sum(b, c, d, a)
  {
    hide Plus;
    PlusCommutes(a, b);
    Interchange(b, a, c, d);
    PlusCommutes(a, d);
  }

  lemma Regroup(a0: byte, b0: byte, c0: byte, d0: byte, a1: byte, b1: byte, c1: byte, d1: byte,
                a2: byte, b2: byte, c2: byte, d2: byte, a3: byte, b3: byte, c3: byte, d3: byte)
    ensures Sum(Sum(a0, b0, c0, d0), Sum(b1, c1, d1, a1), Sum(c2, d2, a2, b2), Sum(d3, a3, b3, c3)) ==
            Sum(Sum(a0, a1, a2, a3), Sum(b0, b1, b2, b3), Sum(c0, c1, c2, c3), Sum(d0, d1, d2, d3))
  {
    hide Plus;
    SumRotates(a1, b1, c1, d1);
    SumRotates(a2, b2, c2, d2);
    SumRotates(b2, c2, d2, a2);
    SumRotates(d3, a3, b3, c3);
    SumsInterchange(a0, b0, c0, d0, a1, b1, c1, d1);
    SumsInterchange(a2, b2, c2, d2, a3, b3, c3, d3);
    SumsInterchange(Plus(a0, a1), Plus(b0, b1), Plus(c0, c1), Plus(d0, d1),
                    Plus(a2, a3), Plus(b2, b3), Plus(c2, c3), Plus(d2, d3));
  }

  lemma PlusZero(a: byte)
    ensures Sum(a, 0, 0, 0) == a
  {
    hide Plus;
    PlusNothing(a);
    PlusNothing(0);
  }

  /** One byte of the inverse matrix times the matrix. */
  lemma UnmixedIsMixed(a: byte, b: byte, c: byte, d: byte)
    ensures UnmixedByte(MixedByte(a, b, c, d), MixedByte(b, c, d, a), MixedByte(c, d, a, b), MixedByte(d, a, b, c)) == a
  {
    hide Sum, Times2, Times3, Times14, Times11, Times13, Times9;
    var a2, b2, c2, d2 := Times2(a), Times2(b), Times2(c), Times2(d);
    var a3, b3, c3, d3 := Times3(a), Times3(b), Times3(c), Times3(d);
    SumsAreLinear(a2, b3, c, d);
    SumsAreLinear(b2, c3, d, a);
    SumsAreLinear(c2, d3, a, b);
    SumsAreLinear(d2, a3, b, c);
    InverseDiagonal(a);
    FirstZero(b);
    SecondZero(c);
    ThirdZero(d);
    Regroup(Times14(a2), Times14(b3), Times14(c), Times14(d), Times11(a), Times11(b2), Times11(c3), Times11(d),
            Times13(a), Times13(b), Times13(c2), Times13(d3), Times9(a3), Times9(b), Times9(c), Times9(d2));
    PlusZero(a);
  }

  lemma MixColumnIsInvertible(a: byte, b: byte, c: byte, d: byte)
    ensures var m := MixColumn(a, b, c, d); InvMixColumn(m[0], m[1], m[2], m[3]) == [a, b, c, d]
  {
    hide UnmixedByte, MixedByte;
    UnmixedIsMixed(a, b, c, d);
    UnmixedIsMixed(b, c, d, a);
    UnmixedIsMixed(c, d, a, b);
    UnmixedIsMixed(d, a, b, c);
  }

  lemma MixColumnsIsInvertible(s: Block)
    ensures InvMixColumns(MixColumns(s)) == s
  {
    hide MixColumn, InvMixColumn;
    MixColumnIsInvertible(s[0], s[1], s[2], s[3]);
    MixColumnIsInvertible(s[4], s[5], s[6], s[7]);
    MixColumnIsInvertible(s[8], s[9], s[10], s[11]);
    MixColumnIsInvertible(s[12], s[13], s[14], s[15]);
  }

  lemma RoundIsInvertible(roundKey: Block, s: Block, last: bool)
    ensures InvRound(roundKey, Round(roundKey, s, last), last) == s
  {
    hide SubBytes, InvSubBytes, ShiftRows, InvShiftRows, MixColumns, InvMixColumns, Xor;
    var u := SubBytes(s);
    var t := if last then ShiftRows(u) else MixColumns(ShiftRows(u));
    XorTwice(t, roundKey);
    MixColumnsIsInvertible(ShiftRows(u));
    ShiftRowsIsInvertible(u);
    SubBytesIsInvertible(s);
  }

  lemma {:induction false} RoundsAreInvertible(key: Block, s: Block, n: nat)
    requires n <= 10
    ensures InvRounds(key, Rounds(key, s, n), n) == s
    decreases n
  {
    hide Round, InvRound, RoundKey, Xor;
    if n == 0 {
      XorTwice(s, RoundKey(key, 0));
    } else {
      RoundIsInvertible(RoundKey(key, n), Rounds(key, s, n - 1), n == 10);
      RoundsAreInvertible(key, s, n - 1);
    }
  }

  /** The cipher under a key is one-to-one: the inverse cipher of the standard takes it back. */
  lemma CipherIsInvertible(key: Block, s: Block)
    ensures InvCipher(key, Cipher(key, s)) == s
  {
    RoundsAreInvertible(key, s, 10);
  }

  lemma CipherIsInjective(key: Block, s: Block, t: Block)
    ensures Cipher(key, s) == Cipher(key, t) <==> s == t
  {
    CipherIsInvertible(key, s);
    CipherIsInvertible(key, t);
  }

  // ---------------------------------------------------------------------------------------------
  // The driver

  function ColumnSum(a: byte, b: byte, c: byte, d: byte): byte { Plus(Plus(Plus(a, b), c), d) }

  /** How `MixColumn` gets a byte: from its own value, the one below and the sum of the whole column. */
  function Shortcut(x: byte, below: byte, all: byte): byte { Plus(Plus(x, GaloisMul2(Plus(x, below))), all) }

  /** One doubling a byte is enough for the product with the matrix. */
  lemma ShortcutIsProduct(a: byte, b: byte, c: byte, d: byte)
    ensures Shortcut(a, b, ColumnSum(a, b, c, d)) == MixedByte(a, b, c, d)
    ensures ColumnSum(a, b, c, d) == ColumnSum(b, c, d, a)
  {
    hide Plus, Times2, GaloisMul2;
    var x, y, rest := Times2(a), Times2(b), Plus(b, Plus(c, d));
    GaloisMul2IsTimes2(Plus(a, b));
    Times2IsLinear(a, b);
    ColumnIsByteAndRest(a, b, c, d);
    PlusCommutes(a, Plus(x, y));
    PlusAssociates(Plus(x, y), a, Plus(a, rest));
    PlusAssociates(a, a, rest);
    PlusNothing(a);
    PlusNothing(rest);
    PlusAssociates(Plus(x, y), b, Plus(c, d));
    PlusAssociates(x, y, b);
  }

  lemma ColumnIsByteAndRest(a: byte, b: byte, c: byte, d: byte)
    ensures ColumnSum(a, b, c, d) == Plus(a, Plus(b, Plus(c, d)))
    ensures ColumnSum(b, c, d, a) == ColumnSum(a, b, c, d)
  {
    hide Plus;
    PlusAssociates(Plus(a, b), c, d);
    PlusAssociates(a, b, Plus(c, d));
    PlusAssociates(b, c, d);
    PlusCommutes(a, Plus(b, Plus(c, d)));
  }

  method SubState(state: array<byte>)
    requires state.Length == AES_BLOCK_SIZE
    modifies state
    ensures state[..] == SubBytes(old(state[..]))
  {
    hide Sbox;
    for i := 0 to AES_BLOCK_SIZE
      invariant forall j :: 0 <= j < i ==> state[j] == Sbox(old(state[j]))
      invariant forall j :: i <= j < AES_BLOCK_SIZE ==> state[j] == old(state[j])
    {
      state[i] := Sbox(state[i]);
    }
  }

  method ShiftState(state: array<byte>)
    requires state.Length == AES_BLOCK_SIZE
    modifies state
    ensures state[..] == ShiftRows(old(state[..]))
  {
    hide ShiftRows;
    ghost var s := state[..];
    ShiftSecondRow(state);
    ShiftThirdRow(state);
    ShiftLastRow(state);
    ShiftedBytes(s, state[..]);
  }

  method ShiftSecondRow(state: array<byte>)
    requires state.Length == AES_BLOCK_SIZE
    modifies state
    ensures state[1] == old(state[5]) && state[5] == old(state[9])
    ensures state[9] == old(state[13]) && state[13] == old(state[1])
    ensures forall k :: 0 <= k < 16 && k != 1 && k != 5 && k != 9 && k != 13 ==> state[k] == old(state[k])
  {
    var buf1 := state[1];
    state[1] := state[5];
    state[5] := state[9];
    state[9] := state[13];
    state[13] := buf1;
  }

  method ShiftThirdRow(state: array<byte>)
    requires state.Length == AES_BLOCK_SIZE
    modifies state
    ensures state[2] == old(state[10]) && state[6] == old(state[14])
    ensures state[10] == old(state[2]) && state[14] == old(state[6])
    ensures forall k :: 0 <= k < 16 && k != 2 && k != 6 && k != 10 && k != 14 ==> state[k] == old(state[k])
  {
    var buf1, buf2 := state[2], state[6];
    state[2] := state[10];
    state[6] := state[14];
    state[10] := buf1;
    state[14] := buf2;
  }

  method ShiftLastRow(state: array<byte>)
    requires state.Length == AES_BLOCK_SIZE
    modifies state
    ensures state[3] == old(state[15]) && state[7] == old(state[3])
    ensures state[11] == old(state[7]) && state[15] == old(state[11])
    ensures forall k :: 0 <= k < 16 && k != 3 && k != 7 && k != 11 && k != 15 ==> state[k] == old(state[k])
  {
    var buf1 := state[15];
    state[15] := state[11];
    state[11] := state[7];
    state[7] := state[3];
    state[3] := buf1;
  }

  lemma ShiftedBytes(s: Block, t: Block)
    requires t[0] == s[0] && t[1] == s[5] && t[2] == s[10] && t[3] == s[15]
    requires t[4] == s[4] && t[5] == s[9] && t[6] == s[14] && t[7] == s[3]
    requires t[8] == s[8] && t[9] == s[13] && t[10] == s[2] && t[11] == s[7]
    requires t[12] == s[12] && t[13] == s[1] && t[14] == s[6] && t[15] == s[11]
    ensures t == ShiftRows(s)
  {
    hide ShiftSource;
    forall i: nat | i < 16
      ensures t[i] == s[ShiftSource(i)]
    {
      ShiftedFrom(i);
    }
  }

  method MixOneColumn(state: array<byte>, at: nat)
    requires state.Length == AES_BLOCK_SIZE && at + 4 <= AES_BLOCK_SIZE
    modifies state
    ensures state[..] == old(state[..at]) + ColumnAt(old(state[..]), at) + old(state[at + 4..])
  {
    hide MixedByte, Shortcut, ColumnSum;
    ghost var a, b, c, d := state[at], state[at + 1], state[at + 2], state[at + 3];
    ShortcutIsProduct(a, b, c, d);
    ShortcutIsProduct(b, c, d, a);
    ShortcutIsProduct(c, d, a, b);
    ShortcutIsProduct(d, a, b, c);
    var buf1 := ColumnSum(state[at], state[at + 1], state[at + 2], state[at + 3]);
    var buf2 := state[at];
    state[at] := Shortcut(state[at], state[at + 1], buf1);
    state[at + 1] := Shortcut(state[at + 1], state[at + 2], buf1);
    state[at + 2] := Shortcut(state[at + 2], state[at + 3], buf1);
    state[at + 3] := Shortcut(state[at + 3], buf2, buf1);
  }

  function ColumnAt(s: seq<byte>, at: nat): (col: seq<byte>)
    requires at + 4 <= |s|
    ensures |col| == 4
  {
    MixColumn(s[at], s[at + 1], s[at + 2], s[at + 3])
  }

  function FirstColumns(s: Block, n: nat): (r: seq<byte>)
    requires n <= 4
    ensures |r| == 4 * n
  {
    if n == 0 then [] else FirstColumns(s, n - 1) + ColumnAt(s, 4 * (n - 1))
  }

  /** The state after `n` columns. */
  function Mixed(s: Block, n: nat): (r: seq<byte>)
    requires n <= 4
    ensures |r| == AES_BLOCK_SIZE
  {
    FirstColumns(s, n) + s[4 * n..]
  }

  lemma MixedAtEnds(s: Block)
    ensures Mixed(s, 0) == s && Mixed(s, 4) == MixColumns(s)
  {
    hide MixColumn;
    assert FirstColumns(s, 2) == ColumnAt(s, 0) + ColumnAt(s, 4);
    assert FirstColumns(s, 3) == ColumnAt(s, 0) + ColumnAt(s, 4) + ColumnAt(s, 8);
  }

  lemma OneMoreColumn(s: Block, i: nat)
    requires i < 4
    ensures var t := Mixed(s, i);
            t[..4 * i] + ColumnAt(t, 4 * i) + t[4 * i + 4..] == Mixed(s, i + 1)
  {
    hide MixColumn;
    var t := Mixed(s, i);
    assert forall k :: 0 <= k < 4 ==> t[4 * i..][k] == s[4 * i..][k];
    assert ColumnAt(t, 4 * i) == ColumnAt(s, 4 * i);
  }

  method MixState(state: array<byte>)
    requires state.Length == AES_BLOCK_SIZE
    modifies state
    ensures state[..] == MixColumns(old(state[..]))
  {
    hide MixColumns, ColumnAt, Mixed;
    ghost var s := state[..];
    MixedAtEnds(s);
    for i := 0 to 4
      invariant state[..] == Mixed(s, i)
    {
      OneMoreColumn(s, i);
      MixOneColumn(state, 4 * i);
    }
  }

  /** Eleven keys, one after the other. */
  predicate HasRoundKey(keys: seq<byte>, key: Block, n: nat)
    requires |keys| == 176 && n <= 10
  {
    keys[16 * n..16 * n + 16] == RoundKey(key, n)
  }

  lemma RoundKeysStay(was: seq<byte>, keys: seq<byte>, key: Block, i: nat)
    requires |was| == |keys| == 176 && i <= 10 && forall n: nat :: n < i ==> HasRoundKey(was, key, n)
    requires forall k :: 0 <= k < 16 * i ==> keys[k] == was[k]
    ensures forall n: nat :: n < i ==> HasRoundKey(keys, key, n)
  {
    hide RoundKey;
    forall n: nat | n < i
      ensures HasRoundKey(keys, key, n)
    {
      assert HasRoundKey(was, key, n);
      assert keys[16 * n..16 * n + 16] == was[16 * n..16 * n + 16];
    }
  }

  class Aes {
    const roundKeys: array<byte>   // eleven keys, one after the other

    constructor ()
      ensures roundKeys.Length == 176 && fresh(roundKeys)
    {
      roundKeys := new byte[176](_ => 0);
    }

    /** The key schedule of a key is in place. */
    ghost predicate Keyed(key: Block)
      reads roundKeys
    {
      roundKeys.Length == 176 && forall n: nat :: n <= 10 ==> HasRoundKey(roundKeys[..], key, n)
    }

    method AddRoundKey(state: array<byte>, n: nat, ghost key: Block)
      requires state.Length == AES_BLOCK_SIZE && n <= 10 && Keyed(key) && state != roundKeys
      modifies state
      ensures state[..] == Xor(old(state[..]), RoundKey(key, n))
    {
      hide RoundKey, Plus;
      assert HasRoundKey(roundKeys[..], key, n);
      for i := 0 to AES_BLOCK_SIZE
        invariant forall j :: 0 <= j < i ==> state[j] == Plus(old(state[j]), RoundKey(key, n)[j])
        invariant forall j :: i <= j < AES_BLOCK_SIZE ==> state[j] == old(state[j])
      {
        state[i] := Plus(state[i], roundKeys[16 * n + i]);
      }
    }

    /** `encrypt` */
    method Encrypt(state: array<byte>, ghost key: Block)
      requires state.Length == AES_BLOCK_SIZE && Keyed(key) && state != roundKeys
      modifies state
      ensures state[..] == Cipher(key, old(state[..]))
    {
      hide Xor, SubBytes, ShiftRows, MixColumns, RoundKey;
      AddRoundKey(state, 0, key);
      for round := 1 to 11
        invariant state[..] == Rounds(key, old(state[..]), round - 1)
      {
        SubState(state);
        ShiftState(state);
        if round < 10 {
          MixState(state);
        }
        AddRoundKey(state, round, key);
      }
    }

    /** `set_key` */
    method SetKey(key: Block)
      requires roundKeys.Length == 176
      modifies roundKeys
      ensures Keyed(key)
    {
      hide HasRoundKey, RoundKey, Rcon;
      CopyKey(key);
      var rcon: byte := 1;
      NextRcon(1);
      for i := 1 to 11
        invariant rcon == Rcon(i)
        invariant forall n: nat :: n < i ==> HasRoundKey(roundKeys[..], key, n)
      {
        ghost var was := roundKeys[..];
        NextRoundKey(i, rcon, key);
        RoundKeysStay(was, roundKeys[..], key, i);
        NextRcon(i);
        rcon := GaloisMul2(rcon);
      }
    }

    method CopyKey(key: Block)
      requires roundKeys.Length == 176
      modifies roundKeys
      ensures HasRoundKey(roundKeys[..], key, 0)
    {
      for j := 0 to 16
        invariant forall k :: 0 <= k < j ==> roundKeys[k] == key[k]
      {
        roundKeys[j] := key[j];
      }
      FirstRoundKey(key);
      assert roundKeys[..16] == key;
    }

    lemma RoundKeyByBytes(key: Block, n: nat)
      requires roundKeys.Length == 176 && n <= 10
      ensures HasRoundKey(roundKeys[..], key, n) <==> BytesAt(RoundKey(key, n), 16 * n, 16)
    {
      hide RoundKey;
      var keys := roundKeys[16 * n..16 * n + 16];
      assert forall k :: 0 <= k < 16 ==> keys[k] == roundKeys[16 * n + k];
    }

    /** One pass of the outer loop. */
    method NextRoundKey(i: nat, rcon: byte, ghost key: Block)
      requires roundKeys.Length == 176 && 1 <= i <= 10 && rcon == Rcon(i)
      requires HasRoundKey(roundKeys[..], key, i - 1)
      modifies roundKeys
      ensures HasRoundKey(roundKeys[..], key, i)
      ensures forall k :: 0 <= k < 16 * i ==> roundKeys[k] == old(roundKeys[k])
    {
      hide RoundKey, Rcon, Plus, KeyWord;
      ghost var last, next := RoundKey(key, i - 1), RoundKey(key, i);
      RoundKeyByBytes(key, i - 1);
      FirstBytesOfKey(key, i);
      forall j | 4 <= j < 16
        ensures next[j] == Plus(last[j], next[j - 4])
      {
        NextKeyByte(key, i, j);
      }
      FirstKeyBytes(16 * i, rcon, last, next);
      OtherKeyBytes(16 * i, last, next);
      RoundKeyByBytes(key, i);
    }

    /** The bytes of `key` are at `at`. */
    ghost predicate BytesAt(key: Block, at: nat, n: nat)
      requires at + n <= roundKeys.Length && n <= 16
      reads roundKeys
    {
      forall k :: 0 <= k < n ==> roundKeys[at + k] == key[k]
    }

    method OtherKeyBytes(at: nat, ghost last: Block, ghost next: Block)
      requires roundKeys.Length == 176 && 16 <= at <= 160 && BytesAt(last, at - 16, 16) && BytesAt(next, at, 4)
      requires forall j :: 4 <= j < 16 ==> next[j] == Plus(last[j], next[j - 4])
      modifies roundKeys
      ensures BytesAt(next, at, 16)
      ensures forall k :: 0 <= k < at ==> roundKeys[k] == old(roundKeys[k])
    {
      hide Plus;
      for j := 4 to 16
        invariant forall k :: 0 <= k < at ==> roundKeys[k] == old(roundKeys[k])
        invariant BytesAt(next, at, j)
      {
        assert roundKeys[at - 16 + j] == last[j];
        assert roundKeys[at + (j - 4)] == next[j - 4];
        roundKeys[at + j] := Plus(roundKeys[at - 16 + j], roundKeys[at + j - 4]);
      }
    }

    method FirstKeyBytes(at: nat, rcon: byte, ghost last: Block, ghost next: Block)
      requires roundKeys.Length == 176 && 16 <= at <= 160 && BytesAt(last, at - 16, 16)
      requires next[0] == Plus(Plus(Sbox(last[13]), last[0]), rcon) && next[1] == Plus(Sbox(last[14]), last[1])
      requires next[2] == Plus(Sbox(last[15]), last[2]) && next[3] == Plus(Sbox(last[12]), last[3])
      modifies roundKeys
      ensures BytesAt(next, at, 4)
      ensures forall k :: 0 <= k < at ==> roundKeys[k] == old(roundKeys[k])
    {
      hide Sbox, Plus;
      assert forall k :: 0 <= k < 16 ==> last[k] == roundKeys[at - 16 + k];
      roundKeys[at] := Plus(Plus(Sbox(roundKeys[at - 3]), roundKeys[at - 16]), rcon);
      roundKeys[at + 1] := Plus(Sbox(roundKeys[at - 2]), roundKeys[at - 15]);
      roundKeys[at + 2] := Plus(Sbox(roundKeys[at - 1]), roundKeys[at - 14]);
      roundKeys[at + 3] := Plus(Sbox(roundKeys[at - 4]), roundKeys[at - 13]);
    }
  }

  lemma FirstRoundKey(key: Block)
    ensures RoundKey(key, 0) == key
  {
  }

  lemma NextRcon(i: nat)
    requires i >= 1
    ensures Rcon(1) == 1 && Rcon(i + 1) == GaloisMul2(Rcon(i))
  {
    hide Times2, GaloisMul2;
    GaloisMul2IsTimes2(Rcon(i));
  }

  lemma XorOrder(a: byte, b: byte, c: byte)
    ensures Plus(Plus(a, b), c) == Plus(b, Plus(a, c)) && Plus(a, b) == Plus(b, a)
  {
    hide Plus;
    PlusCommutes(a, b);
    PlusAssociates(b, a, c);
  }

  lemma ByteOfRoundKey(key: Block, n: nat, j: nat)
    requires j < 16
    ensures RoundKey(key, n)[j] == KeyWord(key, 4 * n + j / 4)[j % 4]
  {
    hide KeyWord;
  }

  /** The expansion byte by byte, as `set_key` writes it. */
  lemma FirstBytesOfKey(key: Block, i: nat)
    requires 1 <= i <= 10
    ensures var last, next := RoundKey(key, i - 1), RoundKey(key, i);
            && next[0] == Plus(Plus(Sbox(last[13]), last[0]), Rcon(i)) && next[1] == Plus(Sbox(last[14]), last[1])
            && next[2] == Plus(Sbox(last[15]), last[2]) && next[3] == Plus(Sbox(last[12]), last[3])
  {
    hide Sbox, Rcon, KeyWord, Plus;
    var last := RoundKey(key, i - 1);
    FirstWord(key, i);
    XorOrder(Sbox(last[13]), last[0], Rcon(i));
    XorOrder(Sbox(last[14]), last[1], 0);
    XorOrder(Sbox(last[15]), last[2], 0);
    XorOrder(Sbox(last[12]), last[3], 0);
  }

  lemma NextKeyByte(key: Block, i: nat, j: nat)
    requires 1 <= i <= 10 && 4 <= j < 16
    ensures RoundKey(key, i)[j] == Plus(RoundKey(key, i - 1)[j], RoundKey(key, i)[j - 4])
  {
    hide RoundKey, KeyWord, Plus;
    var n := 4 * i + j / 4;
    ByteOfRoundKey(key, i, j);
    ByteOfRoundKey(key, i, j - 4);
    ByteOfRoundKey(key, i - 1, j);
    assert (j - 4) / 4 == j / 4 - 1 && (j - 4) % 4 == j % 4;
    NextWord(key, n);
  }

  lemma FirstWord(key: Block, i: nat)
    requires 1 <= i
    ensures KeyWord(key, 4 * i) == Xor(KeyWord(key, 4 * i - 4), KeyCore(KeyWord(key, 4 * i - 1), Rcon(i)))
  {
    hide KeyCore, Rcon, Xor;
  }

  lemma NextWord(key: Block, n: nat)
    requires n >= 4 && n % 4 != 0
    ensures KeyWord(key, n) == Xor(KeyWord(key, n - 4), KeyWord(key, n - 1))
  {
    hide Xor;
  }
}
