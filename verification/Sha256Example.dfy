/** The one-block example that the National Institute of Standards and Technology gives for SHA-256: the digest of
    "abc", with the message schedule, and with the working variables after every eighth round. */
module Sha256Example {
  import opened ByteStrings
  import opened Sha256Block
  import opened Sha256

  /** The message and its padding: a one bit, zeros, and a length of 24 bits. */
  function Block(): (r: seq<byte>)
    ensures |r| == BLOCK_SIZE
  {
    [0x61, 0x62, 0x63, 0x80] + Zeros(59) + [0x18]
  }

  lemma {:induction false} SmallNumber(v: nat, n: nat)
    requires v < 256 && n > 0
    ensures BigEndian(v, n) == Zeros(n - 1) + [LowByte(v)]
    decreases n
  {
    hide LowByte;
    assert BigEndian(v, n) == BigEndian(0, n - 1) + [LowByte(v)];
    if n > 1 {
      SmallNumber(0, n - 1);
      LowBytes();
      assert BigEndian(0, n - 1) == Zeros(n - 1);
    }
  }

  lemma LowBytes()
    ensures LowByte(0) == 0 && LowByte(24) == 0x18
  {
    assert 0 % 256 == 0 && 24 % 256 == 24;
  }

  lemma BlockIsPadded()
    ensures Padded([0x61, 0x62, 0x63], 24) == Block()
  {
    hide BigEndian, LowByte;
    SmallNumber(24, 8);
    LowBytes();
    assert Zeros(52) + Zeros(7) == Zeros(59);
    assert [0x61, 0x62, 0x63] + [0x80] + Zeros(52) + (Zeros(7) + [0x18]) == Block();
  }

  predicate WordIs(t: nat, w: Word) {
    t < 64 && Schedule(Block(), t) == w
  }

  /** Eight words of the schedule. */
  predicate Row(q: nat, w0: Word, w1: Word, w2: Word, w3: Word, w4: Word, w5: Word, w6: Word, w7: Word) {
    && WordIs(8 * q, w0) && WordIs(8 * q + 1, w1) && WordIs(8 * q + 2, w2) && WordIs(8 * q + 3, w3)
    && WordIs(8 * q + 4, w4) && WordIs(8 * q + 5, w5) && WordIs(8 * q + 6, w6) && WordIs(8 * q + 7, w7)
  }

  lemma FirstWords()
    ensures Row(0, 0x61626380, 0, 0, 0, 0, 0, 0, 0) && Row(1, 0, 0, 0, 0, 0, 0, 0, 0x00000018)
  {
    hide WordIs;
    BlockWord(0, 0x61626380);
    BlockWord(15, 0x00000018);
    forall t: nat | 1 <= t < 15
      ensures WordIs(t, 0)
    {
      BlockWord(t, 0);
    }
  }

  lemma BlockWord(t: nat, w: Word)
    requires t < 16 && w == if t == 0 then 0x61626380 else if t == 15 then 0x00000018 else 0
    ensures WordIs(t, w)
  {
    hide Block, WordOf;
    BlockBytes();
    WordsOfBytes();
    var bytes := Block()[4 * t..4 * t + 4];
    if t == 0 {
      assert bytes == [0x61, 0x62, 0x63, 0x80];
    } else if t == 15 {
      assert bytes == [0, 0, 0, 0x18];
    } else {
      assert bytes == [0, 0, 0, 0];
    }
  }

  lemma BlockBytes()
    ensures var block := Block();
      && block[0] == 0x61 && block[1] == 0x62 && block[2] == 0x63 && block[3] == 0x80 && block[63] == 0x18
      && forall i :: 4 <= i < 63 ==> block[i] == 0
  {
  }

  lemma WordsOfBytes()
    ensures WordOf([0x61, 0x62, 0x63, 0x80]) == 0x61626380
    ensures WordOf([0, 0, 0, 0x18]) == 0x00000018 && WordOf([0, 0, 0, 0]) == 0
  {
  }

  // ---------------------------------------------------------------------------------------------
  // The functions of the standard with shifts by constants

  function Xor3(x: Word, y: Word, z: Word): Word { x ^ y ^ z }

  function Sum0(x: Word): Word { Xor3((x >> 2) | (x << 30), (x >> 13) | (x << 19), (x >> 22) | (x << 10)) }

  function Sum1(x: Word): Word { Xor3((x >> 6) | (x << 26), (x >> 11) | (x << 21), (x >> 25) | (x << 7)) }

  function Small0(x: Word): Word { Xor3((x >> 7) | (x << 25), (x >> 18) | (x << 14), x >> 3) }

  function Small1(x: Word): Word { Xor3((x >> 17) | (x << 15), (x >> 19) | (x << 13), x >> 10) }

  lemma Rotations0(x: Word)
    ensures BigSigma0(x) == Xor3(Rotr(x, 2), Rotr(x, 13), Rotr(x, 22))
  {
    hide Rotr;
  }

  lemma Rotations1(x: Word)
    ensures BigSigma1(x) == Xor3(Rotr(x, 6), Rotr(x, 11), Rotr(x, 25))
  {
    hide Rotr;
  }

  lemma SmallRotations0(x: Word)
    ensures SmallSigma0(x) == Xor3(Rotr(x, 7), Rotr(x, 18), x >> 3)
  {
    hide Rotr;
  }

  lemma SmallRotations1(x: Word)
    ensures SmallSigma1(x) == Xor3(Rotr(x, 17), Rotr(x, 19), x >> 10)
  {
    hide Rotr;
  }

  lemma Rotations(x: Word)
    ensures Rotr(x, 2) == (x >> 2) | (x << 30) && Rotr(x, 13) == (x >> 13) | (x << 19)
    ensures Rotr(x, 22) == (x >> 22) | (x << 10) && Rotr(x, 6) == (x >> 6) | (x << 26)
    ensures Rotr(x, 11) == (x >> 11) | (x << 21) && Rotr(x, 25) == (x >> 25) | (x << 7)
    ensures Rotr(x, 7) == (x >> 7) | (x << 25) && Rotr(x, 18) == (x >> 18) | (x << 14)
    ensures Rotr(x, 17) == (x >> 17) | (x << 15) && Rotr(x, 19) == (x >> 19) | (x << 13)
  {
  }

  lemma SumsByShifts(x: Word)
    ensures BigSigma0(x) == Sum0(x) && BigSigma1(x) == Sum1(x)
    ensures SmallSigma0(x) == Small0(x) && SmallSigma1(x) == Small1(x)
  {
    hide Rotr, Xor3, BigSigma0, BigSigma1, SmallSigma0, SmallSigma1;
    Rotations0(x);
    Rotations1(x);
    SmallRotations0(x);
    SmallRotations1(x);
    Rotations(x);
  }

  // ---------------------------------------------------------------------------------------------
  // The message schedule

  function NextWord(w2: Word, w7: Word, w15: Word, w16: Word): Word {
    Add(Add(Add(Small1(w2), w7), Small0(w15)), w16)
  }

  lemma Extend(t: nat, w2: Word, w7: Word, w15: Word, w16: Word, w: Word)
    requires 16 <= t < 64 && WordIs(t - 2, w2) && WordIs(t - 7, w7)
    requires WordIs(t - 15, w15) && WordIs(t - 16, w16)
    requires w == NextWord(w2, w7, w15, w16)
    ensures WordIs(t, w)
  {
    hide SmallSigma0, SmallSigma1, Small0, Small1, Add;
    SumsByShifts(w2);
    SumsByShifts(w15);
  }

  lemma Words1()
    ensures Row(2, 0x61626380, 0x000f0000, 0x7da86405, 0x600003c6,
                   0x3e9d7b78, 0x0183fc00, 0x12dcbfdb, 0xe2e2c38e)
    ensures Row(3, 0xc8215c1a, 0xb73679a2, 0xe5bc3909, 0x32663c5b,
                   0x9d209d67, 0xec8726cb, 0x702138a4, 0xd3b7973b)
  {
    hide WordIs;
    FirstWords();
    Extend(16, 0x00000000, 0x00000000, 0x00000000, 0x61626380, 0x61626380);
    Extend(17, 0x00000018, 0x00000000, 0x00000000, 0x00000000, 0x000f0000);
    Extend(18, 0x61626380, 0x00000000, 0x00000000, 0x00000000, 0x7da86405);
    Extend(19, 0x000f0000, 0x00000000, 0x00000000, 0x00000000, 0x600003c6);
    Extend(20, 0x7da86405, 0x00000000, 0x00000000, 0x00000000, 0x3e9d7b78);
    Extend(21, 0x600003c6, 0x00000000, 0x00000000, 0x00000000, 0x0183fc00);
    Extend(22, 0x3e9d7b78, 0x00000018, 0x00000000, 0x00000000, 0x12dcbfdb);
    Extend(23, 0x0183fc00, 0x61626380, 0x00000000, 0x00000000, 0xe2e2c38e);
    Extend(24, 0x12dcbfdb, 0x000f0000, 0x00000000, 0x00000000, 0xc8215c1a);
    Extend(25, 0xe2e2c38e, 0x7da86405, 0x00000000, 0x00000000, 0xb73679a2);
    Extend(26, 0xc8215c1a, 0x600003c6, 0x00000000, 0x00000000, 0xe5bc3909);
    Extend(27, 0xb73679a2, 0x3e9d7b78, 0x00000000, 0x00000000, 0x32663c5b);
    Extend(28, 0xe5bc3909, 0x0183fc00, 0x00000000, 0x00000000, 0x9d209d67);
    Extend(29, 0x32663c5b, 0x12dcbfdb, 0x00000000, 0x00000000, 0xec8726cb);
    Extend(30, 0x9d209d67, 0xe2e2c38e, 0x00000018, 0x00000000, 0x702138a4);
    Extend(31, 0xec8726cb, 0xc8215c1a, 0x61626380, 0x00000018, 0xd3b7973b);
  }

  lemma Words2()
    ensures Row(4, 0x93f5997f, 0x3b68ba73, 0xaff4ffc1, 0xf10a5c62,
                   0x0a8b3996, 0x72af830a, 0x9409e33e, 0x24641522)
    ensures Row(5, 0x9f47bf94, 0xf0a64f5a, 0x3e246a79, 0x27333ba3,
                   0x0c4763f2, 0x840abf27, 0x7a290d5d, 0x065c43da)
  {
    hide WordIs;
    Words1();
    Extend(32, 0x702138a4, 0xb73679a2, 0x000f0000, 0x61626380, 0x93f5997f);
    Extend(33, 0xd3b7973b, 0xe5bc3909, 0x7da86405, 0x000f0000, 0x3b68ba73);
    Extend(34, 0x93f5997f, 0x32663c5b, 0x600003c6, 0x7da86405, 0xaff4ffc1);
    Extend(35, 0x3b68ba73, 0x9d209d67, 0x3e9d7b78, 0x600003c6, 0xf10a5c62);
    Extend(36, 0xaff4ffc1, 0xec8726cb, 0x0183fc00, 0x3e9d7b78, 0x0a8b3996);
    Extend(37, 0xf10a5c62, 0x702138a4, 0x12dcbfdb, 0x0183fc00, 0x72af830a);
    Extend(38, 0x0a8b3996, 0xd3b7973b, 0xe2e2c38e, 0x12dcbfdb, 0x9409e33e);
    Extend(39, 0x72af830a, 0x93f5997f, 0xc8215c1a, 0xe2e2c38e, 0x24641522);
    Extend(40, 0x9409e33e, 0x3b68ba73, 0xb73679a2, 0xc8215c1a, 0x9f47bf94);
    Extend(41, 0x24641522, 0xaff4ffc1, 0xe5bc3909, 0xb73679a2, 0xf0a64f5a);
    Extend(42, 0x9f47bf94, 0xf10a5c62, 0x32663c5b, 0xe5bc3909, 0x3e246a79);
    Extend(43, 0xf0a64f5a, 0x0a8b3996, 0x9d209d67, 0x32663c5b, 0x27333ba3);
    Extend(44, 0x3e246a79, 0x72af830a, 0xec8726cb, 0x9d209d67, 0x0c4763f2);
    Extend(45, 0x27333ba3, 0x9409e33e, 0x702138a4, 0xec8726cb, 0x840abf27);
    Extend(46, 0x0c4763f2, 0x24641522, 0xd3b7973b, 0x702138a4, 0x7a290d5d);
    Extend(47, 0x840abf27, 0x9f47bf94, 0x93f5997f, 0xd3b7973b, 0x065c43da);
  }

  lemma Words3()
    ensures Row(6, 0xfb3e89cb, 0xcc7617db, 0xb9e66c34, 0xa9993667,
                   0x84badedd, 0xc21462bc, 0x1487472c, 0xb20f7a99)
    ensures Row(7, 0xef57b9cd, 0xebe6b238, 0x9fe3095e, 0x78bc8d4b,
                   0xa43fcf15, 0x668b2ff8, 0xeeaba2cc, 0x12b1edeb)
  {
    hide WordIs;
    Words2();
    Extend(48, 0x7a290d5d, 0xf0a64f5a, 0x3b68ba73, 0x93f5997f, 0xfb3e89cb);
    Extend(49, 0x065c43da, 0x3e246a79, 0xaff4ffc1, 0x3b68ba73, 0xcc7617db);
    Extend(50, 0xfb3e89cb, 0x27333ba3, 0xf10a5c62, 0xaff4ffc1, 0xb9e66c34);
    Extend(51, 0xcc7617db, 0x0c4763f2, 0x0a8b3996, 0xf10a5c62, 0xa9993667);
    Extend(52, 0xb9e66c34, 0x840abf27, 0x72af830a, 0x0a8b3996, 0x84badedd);
    Extend(53, 0xa9993667, 0x7a290d5d, 0x9409e33e, 0x72af830a, 0xc21462bc);
    Extend(54, 0x84badedd, 0x065c43da, 0x24641522, 0x9409e33e, 0x1487472c);
    Extend(55, 0xc21462bc, 0xfb3e89cb, 0x9f47bf94, 0x24641522, 0xb20f7a99);
    Extend(56, 0x1487472c, 0xcc7617db, 0xf0a64f5a, 0x9f47bf94, 0xef57b9cd);
    Extend(57, 0xb20f7a99, 0xb9e66c34, 0x3e246a79, 0xf0a64f5a, 0xebe6b238);
    Extend(58, 0xef57b9cd, 0xa9993667, 0x27333ba3, 0x3e246a79, 0x9fe3095e);
    Extend(59, 0xebe6b238, 0x84badedd, 0x0c4763f2, 0x27333ba3, 0x78bc8d4b);
    Extend(60, 0x9fe3095e, 0xc21462bc, 0x840abf27, 0x0c4763f2, 0xa43fcf15);
    Extend(61, 0x78bc8d4b, 0x1487472c, 0x7a290d5d, 0x840abf27, 0x668b2ff8);
    Extend(62, 0xa43fcf15, 0xb20f7a99, 0x065c43da, 0x7a290d5d, 0xeeaba2cc);
    Extend(63, 0x668b2ff8, 0xef57b9cd, 0xfb3e89cb, 0x065c43da, 0x12b1edeb);
  }

  /** `v` holds the working variables after `t` rounds. */
  predicate Reached(t: nat, v: Vars) {
    t <= 64 && Rounds(VarsOf(InitialState()), Block(), t) == v
  }

  lemma Turn(t: nat, v: Vars, k: Word, w: Word, a: Word, e: Word) returns (v': Vars)
    requires t < 64 && Reached(t, v) && K(t) == k && WordIs(t, w)
    requires var t1 := T1(v.h, Sum1(v.e), Ch(v.e, v.f, v.g), k, w);
      e == Add(v.d, t1) && a == Add(t1, Add(Sum0(v.a), Maj(v.a, v.b, v.c)))
    ensures v' == Vars(a, v.a, v.b, v.c, e, v.e, v.f, v.g) && Reached(t + 1, v')
  {
    hide BigSigma0, BigSigma1, Sum0, Sum1, Schedule, K, Add, T1, Ch, Maj;
    SumsByShifts(v.a);
    SumsByShifts(v.e);
    v' := Round(v, k, w);
  }

  lemma Rounds0() returns (v: Vars)
    ensures v == Vars(0x85a07b5f, 0xe5030380, 0x2b4209f5, 0x04409a6a, 0x0c657a79, 0x9b27a401, 0x714260ad, 0x43ada245)
    ensures Reached(8, v)
  {
    hide Reached, WordIs;
    FirstWords();
    v := RoundsStart();
    v := Turn(0, v, 0x428a2f98, 0x61626380, 0x5d6aebcd, 0xfa2a4622);
    v := Turn(1, v, 0x71374491, 0x00000000, 0x5a6ad9ad, 0x78ce7989);
    v := Turn(2, v, 0xb5c0fbcf, 0x00000000, 0xc8c347a7, 0xf92939eb);
    v := Turn(3, v, 0xe9b5dba5, 0x00000000, 0xd550f666, 0x24e00850);
    v := Turn(4, v, 0x3956c25b, 0x00000000, 0x04409a6a, 0x43ada245);
    v := Turn(5, v, 0x59f111f1, 0x00000000, 0x2b4209f5, 0x714260ad);
    v := Turn(6, v, 0x923f82a4, 0x00000000, 0xe5030380, 0x9b27a401);
    v := Turn(7, v, 0xab1c5ed5, 0x00000000, 0x85a07b5f, 0x0c657a79);
  }

  lemma Rounds1() returns (v: Vars)
    ensures v == Vars(0xb0fa238e, 0xc0645fde, 0xd932eb16, 0x87912990, 0x07590dcd, 0x0b92f20c, 0x745a48de, 0x1e578218)
    ensures Reached(16, v)
  {
    hide Reached, WordIs;
    FirstWords();
    v := Rounds0();
    v := Turn(8, v, 0xd807aa98, 0x00000000, 0x8e04ecb9, 0x32ca2d8c);
    v := Turn(9, v, 0x12835b01, 0x00000000, 0x8c87346b, 0x1cc92596);
    v := Turn(10, v, 0x243185be, 0x00000000, 0x4798a3f4, 0x436b23e8);
    v := Turn(11, v, 0x550c7dc3, 0x00000000, 0xf71fc5a9, 0x816fd6e9);
    v := Turn(12, v, 0x72be5d74, 0x00000000, 0x87912990, 0x1e578218);
    v := Turn(13, v, 0x80deb1fe, 0x00000000, 0xd932eb16, 0x745a48de);
    v := Turn(14, v, 0x9bdc06a7, 0x00000000, 0xc0645fde, 0x0b92f20c);
    v := Turn(15, v, 0xc19bf174, 0x00000018, 0xb0fa238e, 0x07590dcd);
  }

  lemma Rounds2() returns (v: Vars)
    ensures v == Vars(0xc5d53d8d, 0xa7a3623f, 0xc2606d6d, 0x9dc68b63, 0xaa47c347, 0x49f5114a, 0xe1257970, 0x8ada8930)
    ensures Reached(24, v)
  {
    hide Reached, WordIs;
    Words1();
    v := Rounds1();
    v := Turn(16, v, 0xe49b69c1, 0x61626380, 0x21da9a9b, 0x8034229c);
    v := Turn(17, v, 0xefbe4786, 0x000f0000, 0xc2fbd9d1, 0x846ee454);
    v := Turn(18, v, 0x0fc19dc6, 0x7da86405, 0xfe777bbf, 0xcc899961);
    v := Turn(19, v, 0x240ca1cc, 0x600003c6, 0xe1f20c33, 0xb0638179);
    v := Turn(20, v, 0x2de92c6f, 0x3e9d7b78, 0x9dc68b63, 0x8ada8930);
    v := Turn(21, v, 0x4a7484aa, 0x0183fc00, 0xc2606d6d, 0xe1257970);
    v := Turn(22, v, 0x5cb0a9dc, 0x12dcbfdb, 0xa7a3623f, 0x49f5114a);
    v := Turn(23, v, 0x76f988da, 0xe2e2c38e, 0xc5d53d8d, 0xaa47c347);
  }

  lemma Rounds3() returns (v: Vars)
    ensures v == Vars(0x73b33bf5, 0xea992a22, 0xa0060b30, 0x363482c9, 0xba591112, 0x0109ab3a, 0xade79437, 0x6112a3b7)
    ensures Reached(32, v)
  {
    hide Reached, WordIs;
    Words1();
    v := Rounds2();
    v := Turn(24, v, 0x983e5152, 0xc8215c1a, 0x1c2c2838, 0x2823ef91);
    v := Turn(25, v, 0xa831c66d, 0xb73679a2, 0xcde8037d, 0x14383d8e);
    v := Turn(26, v, 0xb00327c8, 0xe5bc3909, 0xb62ec4bc, 0xc74c6516);
    v := Turn(27, v, 0xbf597fc7, 0x32663c5b, 0x77d37528, 0xedffbff8);
    v := Turn(28, v, 0xc6e00bf3, 0x9d209d67, 0x363482c9, 0x6112a3b7);
    v := Turn(29, v, 0xd5a79147, 0xec8726cb, 0xa0060b30, 0xade79437);
    v := Turn(30, v, 0x06ca6351, 0x702138a4, 0xea992a22, 0x0109ab3a);
    v := Turn(31, v, 0x14292967, 0xd3b7973b, 0x73b33bf5, 0xba591112);
  }

  lemma Rounds4() returns (v: Vars)
    ensures v == Vars(0x79ea687a, 0x6dc57a8a, 0x34df1604, 0x41a65cb1, 0x1efbc0a0, 0xf0781bc8, 0xa507a53d, 0x0772a26b)
    ensures Reached(40, v)
  {
    hide Reached, WordIs;
    Words2();
    v := Rounds3();
    v := Turn(32, v, 0x27b70a85, 0x93f5997f, 0x98e12507, 0x9cd9f5f6);
    v := Turn(33, v, 0x2e1b2138, 0x3b68ba73, 0xfe604df5, 0x59249dd3);
    v := Turn(34, v, 0x4d2c6dfc, 0xaff4ffc1, 0xa9a7738c, 0x085f3833);
    v := Turn(35, v, 0x53380d13, 0xf10a5c62, 0x65a0cfe4, 0xf4b002d6);
    v := Turn(36, v, 0x650a7354, 0x0a8b3996, 0x41a65cb1, 0x0772a26b);
    v := Turn(37, v, 0x766a0abb, 0x72af830a, 0x34df1604, 0xa507a53d);
    v := Turn(38, v, 0x81c2c92e, 0x9409e33e, 0x6dc57a8a, 0xf0781bc8);
    v := Turn(39, v, 0x92722c85, 0x24641522, 0x79ea687a, 0x1efbc0a0);
  }

  lemma Rounds5() returns (v: Vars)
    ensures v == Vars(0x4172328d, 0xa14c14b0, 0x72ab4b91, 0x26628815, 0xfecf0bc6, 0xd57b94a9, 0xb7755da1, 0xa80f11f0)
    ensures Reached(48, v)
  {
    hide Reached, WordIs;
    Words2();
    v := Rounds4();
    v := Turn(40, v, 0xa2bfe8a1, 0x9f47bf94, 0xd6670766, 0x26352d63);
    v := Turn(41, v, 0xa81a664b, 0xf0a64f5a, 0xdf46652f, 0x838b2711);
    v := Turn(42, v, 0xc24b8b70, 0x3e246a79, 0x17aa0dfe, 0xdecd4715);
    v := Turn(43, v, 0xc76c51a3, 0x27333ba3, 0x9d4baf93, 0xfda24c2e);
    v := Turn(44, v, 0xd192e819, 0x0c4763f2, 0x26628815, 0xa80f11f0);
    v := Turn(45, v, 0xd6990624, 0x840abf27, 0x72ab4b91, 0xb7755da1);
    v := Turn(46, v, 0xf40e3585, 0x7a290d5d, 0xa14c14b0, 0xd57b94a9);
    v := Turn(47, v, 0x106aa070, 0x065c43da, 0x4172328d, 0xfecf0bc6);
  }

  lemma Rounds6() returns (v: Vars)
    ensures v == Vars(0x38cc9913, 0x3ec45cdb, 0xf5702fdb, 0x101fd28f, 0x54cb266b, 0xe50e1b4f, 0x9f4787c3, 0x529e7d00)
    ensures Reached(56, v)
  {
    hide Reached, WordIs;
    Words3();
    v := Rounds5();
    v := Turn(48, v, 0x19a4c116, 0xfb3e89cb, 0x05757ceb, 0xbd714038);
    v := Turn(49, v, 0x1e376c08, 0xcc7617db, 0xf11bfaa8, 0x6e5c390c);
    v := Turn(50, v, 0x2748774c, 0xb9e66c34, 0x7a0508a1, 0x52f1ccf7);
    v := Turn(51, v, 0x34b0bcb5, 0xa9993667, 0x886e7a22, 0x49231c1e);
    v := Turn(52, v, 0x391c0cb3, 0x84badedd, 0x101fd28f, 0x529e7d00);
    v := Turn(53, v, 0x4ed8aa4a, 0xc21462bc, 0xf5702fdb, 0x9f4787c3);
    v := Turn(54, v, 0x5b9cca4f, 0x1487472c, 0x3ec45cdb, 0xe50e1b4f);
    v := Turn(55, v, 0x682e6ff3, 0xb20f7a99, 0x38cc9913, 0x54cb266b);
  }

  lemma Rounds7() returns (v: Vars)
    ensures v == Vars(0x506e3058, 0xd39a2165, 0x04d24d6c, 0xb85e2ce9, 0x5ef50f24, 0xfb121210, 0x948d25b6, 0x961f4894)
    ensures Reached(64, v)
  {
    hide Reached, WordIs;
    Words3();
    v := Rounds6();
    v := Turn(56, v, 0x748f82ee, 0xef57b9cd, 0xfcd1887b, 0x9b5e906c);
    v := Turn(57, v, 0x78a5636f, 0xebe6b238, 0xc062d46f, 0x7e44008e);
    v := Turn(58, v, 0x84c87814, 0x9fe3095e, 0xffb70472, 0x6d83bfc6);
    v := Turn(59, v, 0x8cc70208, 0x78bc8d4b, 0xb6ae8fff, 0xb21bad3d);
    v := Turn(60, v, 0x90befffa, 0xa43fcf15, 0xb85e2ce9, 0x961f4894);
    v := Turn(61, v, 0xa4506ceb, 0x668b2ff8, 0x04d24d6c, 0x948d25b6);
    v := Turn(62, v, 0xbef9a3f7, 0xeeaba2cc, 0xd39a2165, 0xfb121210);
    v := Turn(63, v, 0xc67178f2, 0x12b1edeb, 0x506e3058, 0x5ef50f24);
  }

  lemma RoundsStart() returns (v: Vars)
    ensures v == Vars(0x6a09e667, 0xbb67ae85, 0x3c6ef372, 0xa54ff53a, 0x510e527f, 0x9b05688c, 0x1f83d9ab, 0x5be0cd19)
    ensures Reached(0, v)
  {
    v := VarsOf(InitialState());
  }

  lemma StateAfterBlock()
    ensures Compress(InitialState(), Block()) ==
      [0xba7816bf, 0x8f01cfea, 0x414140de, 0x5dae2223,
       0xb00361a3, 0x96177a9c, 0xb410ff61, 0xf20015ad]
  {
    hide Rounds, Block;
    var v := Rounds7();
  }

  lemma OneBlock()
    ensures HashBlocks(InitialState(), Block()) ==
      [0xba7816bf, 0x8f01cfea, 0x414140de, 0x5dae2223,
       0xb00361a3, 0x96177a9c, 0xb410ff61, 0xf20015ad]
  {
    hide Compress, Block, InitialState;
    StateAfterBlock();
    var block := Block();
    assert block[..BLOCK_SIZE] == block && block[BLOCK_SIZE..] == [];
    assert HashBlocks(Compress(InitialState(), block), []) == Compress(InitialState(), block);
  }

  lemma BytesOfEight(a: Word, b: Word, c: Word, d: Word, e: Word, f: Word, g: Word, h: Word)
    ensures BytesOf([a, b, c, d, e, f, g, h]) == WordBytes(a) + WordBytes(b) + WordBytes(c) + WordBytes(d)
      + WordBytes(e) + WordBytes(f) + WordBytes(g) + WordBytes(h)
  {
    hide BytesOf, WordBytes;
    BytesOfFour(a, b, c, d);
    BytesOfOneMore([a, b, c, d], e);
    BytesOfOneMore([a, b, c, d, e], f);
    BytesOfOneMore([a, b, c, d, e, f], g);
    BytesOfOneMore([a, b, c, d, e, f, g], h);
    assert [a, b, c, d] + [e] == [a, b, c, d, e];
    assert [a, b, c, d, e] + [f] == [a, b, c, d, e, f];
    assert [a, b, c, d, e, f] + [g] == [a, b, c, d, e, f, g];
    assert [a, b, c, d, e, f, g] + [h] == [a, b, c, d, e, f, g, h];
  }

  lemma BytesOfFour(a: Word, b: Word, c: Word, d: Word)
    ensures BytesOf([a, b, c, d]) == WordBytes(a) + WordBytes(b) + WordBytes(c) + WordBytes(d)
  {
    hide WordBytes;
    BytesOfOneMore([], a);
    BytesOfOneMore([a], b);
    BytesOfOneMore([a, b], c);
    BytesOfOneMore([a, b, c], d);
    assert [a] + [b] == [a, b] && [a, b] + [c] == [a, b, c] && [a, b, c] + [d] == [a, b, c, d];
  }

  lemma DigestOfAbc()
    ensures Digest([0x61, 0x62, 0x63]) ==
    [ 0xba, 0x78, 0x16, 0xbf, 0x8f, 0x01, 0xcf, 0xea, 0x41, 0x41, 0x40, 0xde, 0x5d, 0xae, 0x22, 0x23,
      0xb0, 0x03, 0x61, 0xa3, 0x96, 0x17, 0x7a, 0x9c, 0xb4, 0x10, 0xff, 0x61, 0xf2, 0x00, 0x15, 0xad ]
  {
    hide Block, HashBlocks, InitialState, Padded, BytesOf;
    BlockIsPadded();
    OneBlock();
    BytesOfEight(0xba7816bf, 0x8f01cfea, 0x414140de, 0x5dae2223, 0xb00361a3, 0x96177a9c, 0xb410ff61, 0xf20015ad);
  }
}
