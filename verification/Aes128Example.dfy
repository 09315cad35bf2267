/** The example of appendix C.1 of FIPS 197: a block enciphered with AES-128, with the eleven round keys and the state
    after every round. */
module Aes128Example {
  import opened ByteStrings
  import opened Aes128

  function Key(): Block {
    [0x00, 0x01, 0x02, 0x03, 0x04, 0x05, 0x06, 0x07, 0x08, 0x09, 0x0a, 0x0b, 0x0c, 0x0d, 0x0e, 0x0f]
  }

  function Plaintext(): Block {
    [0x00, 0x11, 0x22, 0x33, 0x44, 0x55, 0x66, 0x77, 0x88, 0x99, 0xaa, 0xbb, 0xcc, 0xdd, 0xee, 0xff]
  }

  predicate BytesAre(s: Block, b0: byte, b1: byte, b2: byte, b3: byte, b4: byte, b5: byte, b6: byte, b7: byte,
                     b8: byte, b9: byte, b10: byte, b11: byte, b12: byte, b13: byte, b14: byte, b15: byte)
  {
    && s[0] == b0 && s[1] == b1 && s[2] == b2 && s[3] == b3
    && s[4] == b4 && s[5] == b5 && s[6] == b6 && s[7] == b7
    && s[8] == b8 && s[9] == b9 && s[10] == b10 && s[11] == b11
    && s[12] == b12 && s[13] == b13 && s[14] == b14 && s[15] == b15
  }

  predicate KeyIs(n: nat, k0: byte, k1: byte, k2: byte, k3: byte, k4: byte, k5: byte, k6: byte, k7: byte, k8: byte,
                  k9: byte, k10: byte, k11: byte, k12: byte, k13: byte, k14: byte, k15: byte)
  {
    BytesAre(RoundKey(Key(), n), k0, k1, k2, k3, k4, k5, k6, k7, k8, k9, k10, k11, k12, k13, k14, k15)
  }

  predicate StateIs(n: nat, s0: byte, s1: byte, s2: byte, s3: byte, s4: byte, s5: byte, s6: byte, s7: byte, s8: byte,
                    s9: byte, s10: byte, s11: byte, s12: byte, s13: byte, s14: byte, s15: byte)
  {
    n <= 10 &&
    BytesAre(Rounds(Key(), Plaintext(), n), s0, s1, s2, s3, s4, s5, s6, s7, s8, s9, s10, s11, s12, s13, s14, s15)
  }

  predicate ShiftedIs(n: nat, t0: byte, t1: byte, t2: byte, t3: byte, t4: byte, t5: byte, t6: byte, t7: byte,
                      t8: byte, t9: byte, t10: byte, t11: byte, t12: byte, t13: byte, t14: byte, t15: byte)
  {
    n < 10 &&
    BytesAre(ShiftRows(SubBytes(Rounds(Key(), Plaintext(), n))),
             t0, t1, t2, t3, t4, t5, t6, t7, t8, t9, t10, t11, t12, t13, t14, t15)
  }

  // ---------------------------------------------------------------------------------------------
  // Byte by byte

  lemma ShiftedByte(s: Block, i: nat)
    requires i < 16
    ensures ShiftRows(SubBytes(s))[i] == Sbox(s[ShiftSource(i)])
  {
    hide Sbox;
  }

  lemma MixedColumn(t: Block, c: nat, r: nat)
    requires c < 4 && r < 4
    ensures MixColumns(t)[4 * c + r] == MixColumn(t[4 * c], t[4 * c + 1], t[4 * c + 2], t[4 * c + 3])[r]
  {
    hide MixColumn;
    if c == 0 {
    } else if c == 1 {
    } else if c == 2 {
    } else {
    }
  }

  /** A column after `MixColumns` and `AddRoundKey`. */
  lemma KeyedColumn(t: Block, k: Block, c: nat)
    requires c < 4
    ensures var i, o := 4 * c, Xor(MixColumns(t), k);
      && o[i] == Plus(MixedByte(t[i], t[i + 1], t[i + 2], t[i + 3]), k[i])
      && o[i + 1] == Plus(MixedByte(t[i + 1], t[i + 2], t[i + 3], t[i]), k[i + 1])
      && o[i + 2] == Plus(MixedByte(t[i + 2], t[i + 3], t[i], t[i + 1]), k[i + 2])
      && o[i + 3] == Plus(MixedByte(t[i + 3], t[i], t[i + 1], t[i + 2]), k[i + 3])
  {
    hide MixColumns, MixedByte, Plus;
    MixedColumn(t, c, 0);
    MixedColumn(t, c, 1);
    MixedColumn(t, c, 2);
    MixedColumn(t, c, 3);
  }

  // ---------------------------------------------------------------------------------------------
  // The key expansion

  lemma NextKey(n: nat, rcon: byte, k0: byte, k1: byte, k2: byte, k3: byte, k4: byte, k5: byte, k6: byte, k7: byte,
                k8: byte, k9: byte, k10: byte, k11: byte, k12: byte, k13: byte, k14: byte, k15: byte, o0: byte,
                o1: byte, o2: byte, o3: byte, o4: byte, o5: byte, o6: byte, o7: byte, o8: byte, o9: byte, o10: byte,
                o11: byte, o12: byte, o13: byte, o14: byte, o15: byte)
    requires n < 10 && rcon == Rcon(n + 1)
    requires KeyIs(n, k0, k1, k2, k3, k4, k5, k6, k7, k8, k9, k10, k11, k12, k13, k14, k15)
    requires o0 == Plus(Plus(Sbox(k13), k0), rcon) && o1 == Plus(Sbox(k14), k1)
    requires o2 == Plus(Sbox(k15), k2) && o3 == Plus(Sbox(k12), k3)
    requires o4 == Plus(k4, o0) && o5 == Plus(k5, o1) && o6 == Plus(k6, o2) && o7 == Plus(k7, o3)
    requires o8 == Plus(k8, o4) && o9 == Plus(k9, o5) && o10 == Plus(k10, o6) && o11 == Plus(k11, o7)
    requires o12 == Plus(k12, o8) && o13 == Plus(k13, o9) && o14 == Plus(k14, o10) && o15 == Plus(k15, o11)
    ensures KeyIs(n + 1, o0, o1, o2, o3, o4, o5, o6, o7, o8, o9, o10, o11, o12, o13, o14, o15)
  {
    hide Sbox, Plus, Rcon, RoundKey, Key;
    var last, next := RoundKey(Key(), n), RoundKey(Key(), n + 1);
    FirstBytesOfKey(Key(), n + 1);
    forall j | 4 <= j < 16
      ensures next[j] == Plus(last[j], next[j - 4])
    {
      NextKeyByte(Key(), n + 1, j);
    }
  }

  lemma FirstKey()
    ensures KeyIs(0, 0x00, 0x01, 0x02, 0x03, 0x04, 0x05, 0x06, 0x07, 0x08, 0x09, 0x0a, 0x0b, 0x0c, 0x0d, 0x0e, 0x0f)
  {
    FirstRoundKey(Key());
  }

  /** The constants of table 5. */
  lemma RoundConstants()
    ensures Rcon(1) == 0x01 && Rcon(2) == 0x02 && Rcon(3) == 0x04 && Rcon(4) == 0x08 && Rcon(5) == 0x10
    ensures Rcon(6) == 0x20 && Rcon(7) == 0x40 && Rcon(8) == 0x80 && Rcon(9) == 0x1b && Rcon(10) == 0x36
  {
  }

  // ---------------------------------------------------------------------------------------------
  // The rounds

  lemma Shift(n: nat, s0: byte, s1: byte, s2: byte, s3: byte, s4: byte, s5: byte, s6: byte, s7: byte, s8: byte,
              s9: byte, s10: byte, s11: byte, s12: byte, s13: byte, s14: byte, s15: byte, t0: byte, t1: byte,
              t2: byte, t3: byte, t4: byte, t5: byte, t6: byte, t7: byte, t8: byte, t9: byte, t10: byte, t11: byte,
              t12: byte, t13: byte, t14: byte, t15: byte)
    requires n < 10 && StateIs(n, s0, s1, s2, s3, s4, s5, s6, s7, s8, s9, s10, s11, s12, s13, s14, s15)
    requires t0 == Sbox(s0) && t1 == Sbox(s5) && t2 == Sbox(s10) && t3 == Sbox(s15)
    requires t4 == Sbox(s4) && t5 == Sbox(s9) && t6 == Sbox(s14) && t7 == Sbox(s3)
    requires t8 == Sbox(s8) && t9 == Sbox(s13) && t10 == Sbox(s2) && t11 == Sbox(s7)
    requires t12 == Sbox(s12) && t13 == Sbox(s1) && t14 == Sbox(s6) && t15 == Sbox(s11)
    ensures ShiftedIs(n, t0, t1, t2, t3, t4, t5, t6, t7, t8, t9, t10, t11, t12, t13, t14, t15)
  {
    hide Sbox, SubBytes, ShiftRows, Rounds, Key, Plaintext;
    var s := Rounds(Key(), Plaintext(), n);
    forall i: nat | i < 16
      ensures ShiftRows(SubBytes(s))[i] == Sbox(s[ShiftSource(i)])
    {
      ShiftedByte(s, i);
    }
  }

  lemma Mix(n: nat, t0: byte, t1: byte, t2: byte, t3: byte, t4: byte, t5: byte, t6: byte, t7: byte, t8: byte,
            t9: byte, t10: byte, t11: byte, t12: byte, t13: byte, t14: byte, t15: byte, k0: byte, k1: byte, k2: byte,
            k3: byte, k4: byte, k5: byte, k6: byte, k7: byte, k8: byte, k9: byte, k10: byte, k11: byte, k12: byte,
            k13: byte, k14: byte, k15: byte, o0: byte, o1: byte, o2: byte, o3: byte, o4: byte, o5: byte, o6: byte,
            o7: byte, o8: byte, o9: byte, o10: byte, o11: byte, o12: byte, o13: byte, o14: byte, o15: byte)
    requires n < 9 && ShiftedIs(n, t0, t1, t2, t3, t4, t5, t6, t7, t8, t9, t10, t11, t12, t13, t14, t15)
    requires KeyIs(n + 1, k0, k1, k2, k3, k4, k5, k6, k7, k8, k9, k10, k11, k12, k13, k14, k15)
    requires o0 == Plus(MixedByte(t0, t1, t2, t3), k0)
    requires o1 == Plus(MixedByte(t1, t2, t3, t0), k1)
    requires o2 == Plus(MixedByte(t2, t3, t0, t1), k2)
    requires o3 == Plus(MixedByte(t3, t0, t1, t2), k3)
    requires o4 == Plus(MixedByte(t4, t5, t6, t7), k4)
    requires o5 == Plus(MixedByte(t5, t6, t7, t4), k5)
    requires o6 == Plus(MixedByte(t6, t7, t4, t5), k6)
    requires o7 == Plus(MixedByte(t7, t4, t5, t6), k7)
    requires o8 == Plus(MixedByte(t8, t9, t10, t11), k8)
    requires o9 == Plus(MixedByte(t9, t10, t11, t8), k9)
    requires o10 == Plus(MixedByte(t10, t11, t8, t9), k10)
    requires o11 == Plus(MixedByte(t11, t8, t9, t10), k11)
    requires o12 == Plus(MixedByte(t12, t13, t14, t15), k12)
    requires o13 == Plus(MixedByte(t13, t14, t15, t12), k13)
    requires o14 == Plus(MixedByte(t14, t15, t12, t13), k14)
    requires o15 == Plus(MixedByte(t15, t12, t13, t14), k15)
    ensures StateIs(n + 1, o0, o1, o2, o3, o4, o5, o6, o7, o8, o9, o10, o11, o12, o13, o14, o15)
  {
    hide Plus, MixedByte, MixColumns, Xor, ShiftRows, SubBytes, RoundKey, Key, Plaintext;
    var t, k := ShiftRows(SubBytes(Rounds(Key(), Plaintext(), n))), RoundKey(Key(), n + 1);
    KeyedColumn(t, k, 0);
    KeyedColumn(t, k, 1);
    KeyedColumn(t, k, 2);
    KeyedColumn(t, k, 3);
  }

  lemma AddKey(s: Block, k: Block, t0: byte, t1: byte, t2: byte, t3: byte, t4: byte, t5: byte, t6: byte, t7: byte,
               t8: byte, t9: byte, t10: byte, t11: byte, t12: byte, t13: byte, t14: byte, t15: byte, k0: byte,
               k1: byte, k2: byte, k3: byte, k4: byte, k5: byte, k6: byte, k7: byte, k8: byte, k9: byte, k10: byte,
               k11: byte, k12: byte, k13: byte, k14: byte, k15: byte, o0: byte, o1: byte, o2: byte, o3: byte,
               o4: byte, o5: byte, o6: byte, o7: byte, o8: byte, o9: byte, o10: byte, o11: byte, o12: byte, o13: byte,
               o14: byte, o15: byte)
    requires BytesAre(ShiftRows(SubBytes(s)), t0, t1, t2, t3, t4, t5, t6, t7, t8, t9, t10, t11, t12, t13, t14, t15)
    requires BytesAre(k, k0, k1, k2, k3, k4, k5, k6, k7, k8, k9, k10, k11, k12, k13, k14, k15)
    requires o0 == Plus(t0, k0) && o1 == Plus(t1, k1) && o2 == Plus(t2, k2) && o3 == Plus(t3, k3)
    requires o4 == Plus(t4, k4) && o5 == Plus(t5, k5) && o6 == Plus(t6, k6) && o7 == Plus(t7, k7)
    requires o8 == Plus(t8, k8) && o9 == Plus(t9, k9) && o10 == Plus(t10, k10) && o11 == Plus(t11, k11)
    requires o12 == Plus(t12, k12) && o13 == Plus(t13, k13) && o14 == Plus(t14, k14) && o15 == Plus(t15, k15)
    ensures BytesAre(Round(k, s, true), o0, o1, o2, o3, o4, o5, o6, o7, o8, o9, o10, o11, o12, o13, o14, o15)
  {
    hide Plus, ShiftRows, SubBytes, Round;
    LastRoundBytes(s, k);
  }

  lemma LastRoundBytes(s: Block, k: Block)
    ensures forall i: nat :: i < 16 ==> Round(k, s, true)[i] == Plus(ShiftRows(SubBytes(s))[i], k[i])
  {
    hide Plus, ShiftRows, SubBytes, MixColumns;
  }

  lemma RoundsGoOn(n: nat)
    requires n < 10
    ensures Rounds(Key(), Plaintext(), n + 1) ==
      Round(RoundKey(Key(), n + 1), Rounds(Key(), Plaintext(), n), n + 1 == 10)
  {
    hide Round, RoundKey, Key, Plaintext;
  }

  lemma Start()
    ensures StateIs(0, 0x00, 0x10, 0x20, 0x30, 0x40, 0x50, 0x60, 0x70, 0x80, 0x90, 0xa0, 0xb0, 0xc0, 0xd0, 0xe0, 0xf0)
  {
    hide RoundKey;
    FirstKey();
  }

  lemma Keys1()
    ensures KeyIs(1, 0xd6, 0xaa, 0x74, 0xfd, 0xd2, 0xaf, 0x72, 0xfa, 0xda, 0xa6, 0x78, 0xf1, 0xd6, 0xab, 0x76, 0xfe)
    ensures KeyIs(2, 0xb6, 0x92, 0xcf, 0x0b, 0x64, 0x3d, 0xbd, 0xf1, 0xbe, 0x9b, 0xc5, 0x00, 0x68, 0x30, 0xb3, 0xfe)
  {
    hide KeyIs;
    FirstKey();
    RoundConstants();
    NextKey(0, 0x01, 0x00, 0x01, 0x02, 0x03, 0x04, 0x05, 0x06, 0x07, 0x08, 0x09, 0x0a, 0x0b, 0x0c, 0x0d, 0x0e, 0x0f,
            0xd6, 0xaa, 0x74, 0xfd, 0xd2, 0xaf, 0x72, 0xfa, 0xda, 0xa6, 0x78, 0xf1, 0xd6, 0xab, 0x76, 0xfe);
    NextKey(1, 0x02, 0xd6, 0xaa, 0x74, 0xfd, 0xd2, 0xaf, 0x72, 0xfa, 0xda, 0xa6, 0x78, 0xf1, 0xd6, 0xab, 0x76, 0xfe,
            0xb6, 0x92, 0xcf, 0x0b, 0x64, 0x3d, 0xbd, 0xf1, 0xbe, 0x9b, 0xc5, 0x00, 0x68, 0x30, 0xb3, 0xfe);
  }

  lemma Keys2()
    ensures KeyIs(3, 0xb6, 0xff, 0x74, 0x4e, 0xd2, 0xc2, 0xc9, 0xbf, 0x6c, 0x59, 0x0c, 0xbf, 0x04, 0x69, 0xbf, 0x41)
    ensures KeyIs(4, 0x47, 0xf7, 0xf7, 0xbc, 0x95, 0x35, 0x3e, 0x03, 0xf9, 0x6c, 0x32, 0xbc, 0xfd, 0x05, 0x8d, 0xfd)
  {
    hide KeyIs;
    Keys1();
    RoundConstants();
    NextKey(2, 0x04, 0xb6, 0x92, 0xcf, 0x0b, 0x64, 0x3d, 0xbd, 0xf1, 0xbe, 0x9b, 0xc5, 0x00, 0x68, 0x30, 0xb3, 0xfe,
            0xb6, 0xff, 0x74, 0x4e, 0xd2, 0xc2, 0xc9, 0xbf, 0x6c, 0x59, 0x0c, 0xbf, 0x04, 0x69, 0xbf, 0x41);
    NextKey(3, 0x08, 0xb6, 0xff, 0x74, 0x4e, 0xd2, 0xc2, 0xc9, 0xbf, 0x6c, 0x59, 0x0c, 0xbf, 0x04, 0x69, 0xbf, 0x41,
            0x47, 0xf7, 0xf7, 0xbc, 0x95, 0x35, 0x3e, 0x03, 0xf9, 0x6c, 0x32, 0xbc, 0xfd, 0x05, 0x8d, 0xfd);
  }

  lemma Keys3()
    ensures KeyIs(5, 0x3c, 0xaa, 0xa3, 0xe8, 0xa9, 0x9f, 0x9d, 0xeb, 0x50, 0xf3, 0xaf, 0x57, 0xad, 0xf6, 0x22, 0xaa)
    ensures KeyIs(6, 0x5e, 0x39, 0x0f, 0x7d, 0xf7, 0xa6, 0x92, 0x96, 0xa7, 0x55, 0x3d, 0xc1, 0x0a, 0xa3, 0x1f, 0x6b)
  {
    hide KeyIs;
    Keys2();
    RoundConstants();
    NextKey(4, 0x10, 0x47, 0xf7, 0xf7, 0xbc, 0x95, 0x35, 0x3e, 0x03, 0xf9, 0x6c, 0x32, 0xbc, 0xfd, 0x05, 0x8d, 0xfd,
            0x3c, 0xaa, 0xa3, 0xe8, 0xa9, 0x9f, 0x9d, 0xeb, 0x50, 0xf3, 0xaf, 0x57, 0xad, 0xf6, 0x22, 0xaa);
    NextKey(5, 0x20, 0x3c, 0xaa, 0xa3, 0xe8, 0xa9, 0x9f, 0x9d, 0xeb, 0x50, 0xf3, 0xaf, 0x57, 0xad, 0xf6, 0x22, 0xaa,
            0x5e, 0x39, 0x0f, 0x7d, 0xf7, 0xa6, 0x92, 0x96, 0xa7, 0x55, 0x3d, 0xc1, 0x0a, 0xa3, 0x1f, 0x6b);
  }

  lemma Keys4()
    ensures KeyIs(7, 0x14, 0xf9, 0x70, 0x1a, 0xe3, 0x5f, 0xe2, 0x8c, 0x44, 0x0a, 0xdf, 0x4d, 0x4e, 0xa9, 0xc0, 0x26)
    ensures KeyIs(8, 0x47, 0x43, 0x87, 0x35, 0xa4, 0x1c, 0x65, 0xb9, 0xe0, 0x16, 0xba, 0xf4, 0xae, 0xbf, 0x7a, 0xd2)
  {
    hide KeyIs;
    Keys3();
    RoundConstants();
    NextKey(6, 0x40, 0x5e, 0x39, 0x0f, 0x7d, 0xf7, 0xa6, 0x92, 0x96, 0xa7, 0x55, 0x3d, 0xc1, 0x0a, 0xa3, 0x1f, 0x6b,
            0x14, 0xf9, 0x70, 0x1a, 0xe3, 0x5f, 0xe2, 0x8c, 0x44, 0x0a, 0xdf, 0x4d, 0x4e, 0xa9, 0xc0, 0x26);
    NextKey(7, 0x80, 0x14, 0xf9, 0x70, 0x1a, 0xe3, 0x5f, 0xe2, 0x8c, 0x44, 0x0a, 0xdf, 0x4d, 0x4e, 0xa9, 0xc0, 0x26,
            0x47, 0x43, 0x87, 0x35, 0xa4, 0x1c, 0x65, 0xb9, 0xe0, 0x16, 0xba, 0xf4, 0xae, 0xbf, 0x7a, 0xd2);
  }

  lemma Keys5()
    ensures KeyIs(9, 0x54, 0x99, 0x32, 0xd1, 0xf0, 0x85, 0x57, 0x68, 0x10, 0x93, 0xed, 0x9c, 0xbe, 0x2c, 0x97, 0x4e)
    ensures KeyIs(10, 0x13, 0x11, 0x1d, 0x7f, 0xe3, 0x94, 0x4a, 0x17, 0xf3, 0x07, 0xa7, 0x8b, 0x4d, 0x2b, 0x30, 0xc5)
  {
    hide KeyIs;
    Keys4();
    RoundConstants();
    NextKey(8, 0x1b, 0x47, 0x43, 0x87, 0x35, 0xa4, 0x1c, 0x65, 0xb9, 0xe0, 0x16, 0xba, 0xf4, 0xae, 0xbf, 0x7a, 0xd2,
            0x54, 0x99, 0x32, 0xd1, 0xf0, 0x85, 0x57, 0x68, 0x10, 0x93, 0xed, 0x9c, 0xbe, 0x2c, 0x97, 0x4e);
    NextKey(9, 0x36, 0x54, 0x99, 0x32, 0xd1, 0xf0, 0x85, 0x57, 0x68, 0x10, 0x93, 0xed, 0x9c, 0xbe, 0x2c, 0x97, 0x4e,
            0x13, 0x11, 0x1d, 0x7f, 0xe3, 0x94, 0x4a, 0x17, 0xf3, 0x07, 0xa7, 0x8b, 0x4d, 0x2b, 0x30, 0xc5);
  }

  lemma Round1()
    ensures StateIs(1, 0x89, 0xd8, 0x10, 0xe8, 0x85, 0x5a, 0xce, 0x68, 0x2d, 0x18, 0x43, 0xd8, 0xcb, 0x12, 0x8f, 0xe4)
  {
    hide KeyIs, StateIs, ShiftedIs;
    Start();
    Keys1();
    Shift(0, 0x00, 0x10, 0x20, 0x30, 0x40, 0x50, 0x60, 0x70, 0x80, 0x90, 0xa0, 0xb0, 0xc0, 0xd0, 0xe0, 0xf0, 0x63,
          0x53, 0xe0, 0x8c, 0x09, 0x60, 0xe1, 0x04, 0xcd, 0x70, 0xb7, 0x51, 0xba, 0xca, 0xd0, 0xe7);
    Mix(0, 0x63, 0x53, 0xe0, 0x8c, 0x09, 0x60, 0xe1, 0x04, 0xcd, 0x70, 0xb7, 0x51, 0xba, 0xca, 0xd0, 0xe7, 0xd6, 0xaa,
        0x74, 0xfd, 0xd2, 0xaf, 0x72, 0xfa, 0xda, 0xa6, 0x78, 0xf1, 0xd6, 0xab, 0x76, 0xfe, 0x89, 0xd8, 0x10, 0xe8,
        0x85, 0x5a, 0xce, 0x68, 0x2d, 0x18, 0x43, 0xd8, 0xcb, 0x12, 0x8f, 0xe4);
  }

  lemma Round2()
    ensures StateIs(2, 0x49, 0x15, 0x59, 0x8f, 0x55, 0xe5, 0xd7, 0xa0, 0xda, 0xca, 0x94, 0xfa, 0x1f, 0x0a, 0x63, 0xf7)
  {
    hide KeyIs, StateIs, ShiftedIs;
    Round1();
    Keys1();
    Shift(1, 0x89, 0xd8, 0x10, 0xe8, 0x85, 0x5a, 0xce, 0x68, 0x2d, 0x18, 0x43, 0xd8, 0xcb, 0x12, 0x8f, 0xe4, 0xa7,
          0xbe, 0x1a, 0x69, 0x97, 0xad, 0x73, 0x9b, 0xd8, 0xc9, 0xca, 0x45, 0x1f, 0x61, 0x8b, 0x61);
    Mix(1, 0xa7, 0xbe, 0x1a, 0x69, 0x97, 0xad, 0x73, 0x9b, 0xd8, 0xc9, 0xca, 0x45, 0x1f, 0x61, 0x8b, 0x61, 0xb6, 0x92,
        0xcf, 0x0b, 0x64, 0x3d, 0xbd, 0xf1, 0xbe, 0x9b, 0xc5, 0x00, 0x68, 0x30, 0xb3, 0xfe, 0x49, 0x15, 0x59, 0x8f,
        0x55, 0xe5, 0xd7, 0xa0, 0xda, 0xca, 0x94, 0xfa, 0x1f, 0x0a, 0x63, 0xf7);
  }

  lemma Round3()
    ensures StateIs(3, 0xfa, 0x63, 0x6a, 0x28, 0x25, 0xb3, 0x39, 0xc9, 0x40, 0x66, 0x8a, 0x31, 0x57, 0x24, 0x4d, 0x17)
  {
    hide KeyIs, StateIs, ShiftedIs;
    Round2();
    Keys2();
    Shift(2, 0x49, 0x15, 0x59, 0x8f, 0x55, 0xe5, 0xd7, 0xa0, 0xda, 0xca, 0x94, 0xfa, 0x1f, 0x0a, 0x63, 0xf7, 0x3b,
          0xd9, 0x22, 0x68, 0xfc, 0x74, 0xfb, 0x73, 0x57, 0x67, 0xcb, 0xe0, 0xc0, 0x59, 0x0e, 0x2d);
    Mix(2, 0x3b, 0xd9, 0x22, 0x68, 0xfc, 0x74, 0xfb, 0x73, 0x57, 0x67, 0xcb, 0xe0, 0xc0, 0x59, 0x0e, 0x2d, 0xb6, 0xff,
        0x74, 0x4e, 0xd2, 0xc2, 0xc9, 0xbf, 0x6c, 0x59, 0x0c, 0xbf, 0x04, 0x69, 0xbf, 0x41, 0xfa, 0x63, 0x6a, 0x28,
        0x25, 0xb3, 0x39, 0xc9, 0x40, 0x66, 0x8a, 0x31, 0x57, 0x24, 0x4d, 0x17);
  }

  lemma Round4()
    ensures StateIs(4, 0x24, 0x72, 0x40, 0x23, 0x69, 0x66, 0xb3, 0xfa, 0x6e, 0xd2, 0x75, 0x32, 0x88, 0x42, 0x5b, 0x6c)
  {
    hide KeyIs, StateIs, ShiftedIs;
    Round3();
    Keys2();
    Shift(3, 0xfa, 0x63, 0x6a, 0x28, 0x25, 0xb3, 0x39, 0xc9, 0x40, 0x66, 0x8a, 0x31, 0x57, 0x24, 0x4d, 0x17, 0x2d,
          0x6d, 0x7e, 0xf0, 0x3f, 0x33, 0xe3, 0x34, 0x09, 0x36, 0x02, 0xdd, 0x5b, 0xfb, 0x12, 0xc7);
    Mix(3, 0x2d, 0x6d, 0x7e, 0xf0, 0x3f, 0x33, 0xe3, 0x34, 0x09, 0x36, 0x02, 0xdd, 0x5b, 0xfb, 0x12, 0xc7, 0x47, 0xf7,
        0xf7, 0xbc, 0x95, 0x35, 0x3e, 0x03, 0xf9, 0x6c, 0x32, 0xbc, 0xfd, 0x05, 0x8d, 0xfd, 0x24, 0x72, 0x40, 0x23,
        0x69, 0x66, 0xb3, 0xfa, 0x6e, 0xd2, 0x75, 0x32, 0x88, 0x42, 0x5b, 0x6c);
  }

  lemma Round5()
    ensures StateIs(5, 0xc8, 0x16, 0x77, 0xbc, 0x9b, 0x7a, 0xc9, 0x3b, 0x25, 0x02, 0x79, 0x92, 0xb0, 0x26, 0x19, 0x96)
  {
    hide KeyIs, StateIs, ShiftedIs;
    Round4();
    Keys3();
    Shift(4, 0x24, 0x72, 0x40, 0x23, 0x69, 0x66, 0xb3, 0xfa, 0x6e, 0xd2, 0x75, 0x32, 0x88, 0x42, 0x5b, 0x6c, 0x36,
          0x33, 0x9d, 0x50, 0xf9, 0xb5, 0x39, 0x26, 0x9f, 0x2c, 0x09, 0x2d, 0xc4, 0x40, 0x6d, 0x23);
    Mix(4, 0x36, 0x33, 0x9d, 0x50, 0xf9, 0xb5, 0x39, 0x26, 0x9f, 0x2c, 0x09, 0x2d, 0xc4, 0x40, 0x6d, 0x23, 0x3c, 0xaa,
        0xa3, 0xe8, 0xa9, 0x9f, 0x9d, 0xeb, 0x50, 0xf3, 0xaf, 0x57, 0xad, 0xf6, 0x22, 0xaa, 0xc8, 0x16, 0x77, 0xbc,
        0x9b, 0x7a, 0xc9, 0x3b, 0x25, 0x02, 0x79, 0x92, 0xb0, 0x26, 0x19, 0x96);
  }

  lemma Round6()
    ensures StateIs(6, 0xc6, 0x2f, 0xe1, 0x09, 0xf7, 0x5e, 0xed, 0xc3, 0xcc, 0x79, 0x39, 0x5d, 0x84, 0xf9, 0xcf, 0x5d)
  {
    hide KeyIs, StateIs, ShiftedIs;
    Round5();
    Keys3();
    Shift(5, 0xc8, 0x16, 0x77, 0xbc, 0x9b, 0x7a, 0xc9, 0x3b, 0x25, 0x02, 0x79, 0x92, 0xb0, 0x26, 0x19, 0x96, 0xe8,
          0xda, 0xb6, 0x90, 0x14, 0x77, 0xd4, 0x65, 0x3f, 0xf7, 0xf5, 0xe2, 0xe7, 0x47, 0xdd, 0x4f);
    Mix(5, 0xe8, 0xda, 0xb6, 0x90, 0x14, 0x77, 0xd4, 0x65, 0x3f, 0xf7, 0xf5, 0xe2, 0xe7, 0x47, 0xdd, 0x4f, 0x5e, 0x39,
        0x0f, 0x7d, 0xf7, 0xa6, 0x92, 0x96, 0xa7, 0x55, 0x3d, 0xc1, 0x0a, 0xa3, 0x1f, 0x6b, 0xc6, 0x2f, 0xe1, 0x09,
        0xf7, 0x5e, 0xed, 0xc3, 0xcc, 0x79, 0x39, 0x5d, 0x84, 0xf9, 0xcf, 0x5d);
  }

  lemma Round7()
    ensures StateIs(7, 0xd1, 0x87, 0x6c, 0x0f, 0x79, 0xc4, 0x30, 0x0a, 0xb4, 0x55, 0x94, 0xad, 0xd6, 0x6f, 0xf4, 0x1f)
  {
    hide KeyIs, StateIs, ShiftedIs;
    Round6();
    Keys4();
    Shift(6, 0xc6, 0x2f, 0xe1, 0x09, 0xf7, 0x5e, 0xed, 0xc3, 0xcc, 0x79, 0x39, 0x5d, 0x84, 0xf9, 0xcf, 0x5d, 0xb4,
          0x58, 0x12, 0x4c, 0x68, 0xb6, 0x8a, 0x01, 0x4b, 0x99, 0xf8, 0x2e, 0x5f, 0x15, 0x55, 0x4c);
    Mix(6, 0xb4, 0x58, 0x12, 0x4c, 0x68, 0xb6, 0x8a, 0x01, 0x4b, 0x99, 0xf8, 0x2e, 0x5f, 0x15, 0x55, 0x4c, 0x14, 0xf9,
        0x70, 0x1a, 0xe3, 0x5f, 0xe2, 0x8c, 0x44, 0x0a, 0xdf, 0x4d, 0x4e, 0xa9, 0xc0, 0x26, 0xd1, 0x87, 0x6c, 0x0f,
        0x79, 0xc4, 0x30, 0x0a, 0xb4, 0x55, 0x94, 0xad, 0xd6, 0x6f, 0xf4, 0x1f);
  }

  lemma Round8()
    ensures StateIs(8, 0xfd, 0xe3, 0xba, 0xd2, 0x05, 0xe5, 0xd0, 0xd7, 0x35, 0x47, 0x96, 0x4e, 0xf1, 0xfe, 0x37, 0xf1)
  {
    hide KeyIs, StateIs, ShiftedIs;
    Round7();
    Keys4();
    Shift(7, 0xd1, 0x87, 0x6c, 0x0f, 0x79, 0xc4, 0x30, 0x0a, 0xb4, 0x55, 0x94, 0xad, 0xd6, 0x6f, 0xf4, 0x1f, 0x3e,
          0x1c, 0x22, 0xc0, 0xb6, 0xfc, 0xbf, 0x76, 0x8d, 0xa8, 0x50, 0x67, 0xf6, 0x17, 0x04, 0x95);
    Mix(7, 0x3e, 0x1c, 0x22, 0xc0, 0xb6, 0xfc, 0xbf, 0x76, 0x8d, 0xa8, 0x50, 0x67, 0xf6, 0x17, 0x04, 0x95, 0x47, 0x43,
        0x87, 0x35, 0xa4, 0x1c, 0x65, 0xb9, 0xe0, 0x16, 0xba, 0xf4, 0xae, 0xbf, 0x7a, 0xd2, 0xfd, 0xe3, 0xba, 0xd2,
        0x05, 0xe5, 0xd0, 0xd7, 0x35, 0x47, 0x96, 0x4e, 0xf1, 0xfe, 0x37, 0xf1);
  }

  lemma Round9()
    ensures StateIs(9, 0xbd, 0x6e, 0x7c, 0x3d, 0xf2, 0xb5, 0x77, 0x9e, 0x0b, 0x61, 0x21, 0x6e, 0x8b, 0x10, 0xb6, 0x89)
  {
    hide KeyIs, StateIs, ShiftedIs;
    Round8();
    Keys5();
    Shift(8, 0xfd, 0xe3, 0xba, 0xd2, 0x05, 0xe5, 0xd0, 0xd7, 0x35, 0x47, 0x96, 0x4e, 0xf1, 0xfe, 0x37, 0xf1, 0x54,
          0xd9, 0x90, 0xa1, 0x6b, 0xa0, 0x9a, 0xb5, 0x96, 0xbb, 0xf4, 0x0e, 0xa1, 0x11, 0x70, 0x2f);
    Mix(8, 0x54, 0xd9, 0x90, 0xa1, 0x6b, 0xa0, 0x9a, 0xb5, 0x96, 0xbb, 0xf4, 0x0e, 0xa1, 0x11, 0x70, 0x2f, 0x54, 0x99,
        0x32, 0xd1, 0xf0, 0x85, 0x57, 0x68, 0x10, 0x93, 0xed, 0x9c, 0xbe, 0x2c, 0x97, 0x4e, 0xbd, 0x6e, 0x7c, 0x3d,
        0xf2, 0xb5, 0x77, 0x9e, 0x0b, 0x61, 0x21, 0x6e, 0x8b, 0x10, 0xb6, 0x89);
  }

  lemma Round10()
    ensures StateIs(10, 0x69, 0xc4, 0xe0, 0xd8, 0x6a, 0x7b, 0x04, 0x30, 0xd8, 0xcd, 0xb7, 0x80, 0x70, 0xb4, 0xc5, 0x5a)
  {
    hide Rounds, RoundKey, Key, Plaintext, BytesAre, Round, ShiftRows, SubBytes;
    var s, k := Rounds(Key(), Plaintext(), 9), RoundKey(Key(), 10);
    RoundsGoOn(9);
    Round9();
    Keys5();
    Shift(9, 0xbd, 0x6e, 0x7c, 0x3d, 0xf2, 0xb5, 0x77, 0x9e, 0x0b, 0x61, 0x21, 0x6e, 0x8b, 0x10, 0xb6, 0x89, 0x7a,
          0xd5, 0xfd, 0xa7, 0x89, 0xef, 0x4e, 0x27, 0x2b, 0xca, 0x10, 0x0b, 0x3d, 0x9f, 0xf5, 0x9f);
    AddKey(s, k, 0x7a, 0xd5, 0xfd, 0xa7, 0x89, 0xef, 0x4e, 0x27, 0x2b, 0xca, 0x10, 0x0b, 0x3d, 0x9f, 0xf5, 0x9f, 0x13,
           0x11, 0x1d, 0x7f, 0xe3, 0x94, 0x4a, 0x17, 0xf3, 0x07, 0xa7, 0x8b, 0x4d, 0x2b, 0x30, 0xc5, 0x69, 0xc4, 0xe0,
           0xd8, 0x6a, 0x7b, 0x04, 0x30, 0xd8, 0xcd, 0xb7, 0x80, 0x70, 0xb4, 0xc5, 0x5a);
  }

  lemma CiphertextOfExample()
    ensures Cipher(Key(), Plaintext()) ==
            [0x69, 0xc4, 0xe0, 0xd8, 0x6a, 0x7b, 0x04, 0x30, 0xd8, 0xcd, 0xb7, 0x80, 0x70, 0xb4, 0xc5, 0x5a]
  {
    hide Rounds, Key, Plaintext;
    Round10();
  }
}
