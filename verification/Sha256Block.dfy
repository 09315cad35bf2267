/** The SHA-256 compression function: as FIPS 180-4 defines it (sections 4.1.2, 4.2.2 and 6.2.2), and
    as `transform` in os/lib/sha-256.c computes it, with registers that rotate instead of values and a
    message schedule that is extended sixteen words at a time. */
module Sha256Block {
  import opened ByteStrings

  type Word = bv32

  const BLOCK_SIZE := 64

  // ---------------------------------------------------------------------------------------------
  // FIPS 180-4

  /** Addition modulo 2^32. */
  function Add(x: Word, y: Word): Word { x + y }

  function Rotr(x: Word, n: nat): Word
    requires 0 < n < 32
  {
    (x >> n) | (x << (32 - n))
  }

  function Ch(x: Word, y: Word, z: Word): Word { (x & y) ^ (!x & z) }

  function Maj(x: Word, y: Word, z: Word): Word { (x & y) ^ (x & z) ^ (y & z) }

  function BigSigma0(x: Word): Word { Rotr(x, 2) ^ Rotr(x, 13) ^ Rotr(x, 22) }

  function BigSigma1(x: Word): Word { Rotr(x, 6) ^ Rotr(x, 11) ^ Rotr(x, 25) }

  function SmallSigma0(x: Word): Word { Rotr(x, 7) ^ Rotr(x, 18) ^ (x >> 3) }

  function SmallSigma1(x: Word): Word { Rotr(x, 17) ^ Rotr(x, 19) ^ (x >> 10) }

  /** The round constants, eight to a row. */
  function K(t: nat): Word
    requires t < 64
  {
    KRow(t / 8)[t % 8]
  }

  function KRow(i: nat): (row: seq<Word>)
    requires i < 8
    ensures |row| == 8
  {
    if i == 0 then [0x428a2f98, 0x71374491, 0xb5c0fbcf, 0xe9b5dba5, 0x3956c25b, 0x59f111f1, 0x923f82a4, 0xab1c5ed5]
    else if i == 1 then [0xd807aa98, 0x12835b01, 0x243185be, 0x550c7dc3, 0x72be5d74, 0x80deb1fe, 0x9bdc06a7, 0xc19bf174]
    else if i == 2 then [0xe49b69c1, 0xefbe4786, 0x0fc19dc6, 0x240ca1cc, 0x2de92c6f, 0x4a7484aa, 0x5cb0a9dc, 0x76f988da]
    else if i == 3 then [0x983e5152, 0xa831c66d, 0xb00327c8, 0xbf597fc7, 0xc6e00bf3, 0xd5a79147, 0x06ca6351, 0x14292967]
    else if i == 4 then [0x27b70a85, 0x2e1b2138, 0x4d2c6dfc, 0x53380d13, 0x650a7354, 0x766a0abb, 0x81c2c92e, 0x92722c85]
    else if i == 5 then [0xa2bfe8a1, 0xa81a664b, 0xc24b8b70, 0xc76c51a3, 0xd192e819, 0xd6990624, 0xf40e3585, 0x106aa070]
    else if i == 6 then [0x19a4c116, 0x1e376c08, 0x2748774c, 0x34b0bcb5, 0x391c0cb3, 0x4ed8aa4a, 0x5b9cca4f, 0x682e6ff3]
    else [0x748f82ee, 0x78a5636f, 0x84c87814, 0x8cc70208, 0x90befffa, 0xa4506ceb, 0xbef9a3f7, 0xc67178f2]
  }

  /** Four bytes as a big-endian word. */
  function WordOf(b: seq<byte>): Word
    requires |b| == 4
  {
    ((b[0] as Word) << 24) | ((b[1] as Word) << 16) | ((b[2] as Word) << 8) | (b[3] as Word)
  }

  /** The message schedule. */
  function Schedule(block: seq<byte>, t: nat): Word
    requires |block| == BLOCK_SIZE && t < 64
  {
    if t < 16 then WordOf(block[4 * t..4 * t + 4])
    else
      var w2, w7 := Schedule(block, t - 2), Schedule(block, t - 7);
      var w15, w16 := Schedule(block, t - 15), Schedule(block, t - 16);
      Add(Add(Add(SmallSigma1(w2), w7), SmallSigma0(w15)), w16)
  }

  /** The working variables. */
  datatype Vars = Vars(a: Word, b: Word, c: Word, d: Word, e: Word, f: Word, g: Word, h: Word)

  function T1(h: Word, sigma: Word, ch: Word, k: Word, w: Word): Word { h + sigma + ch + k + w }

  function Round(v: Vars, k: Word, w: Word): Vars {
    var t1 := T1(v.h, BigSigma1(v.e), Ch(v.e, v.f, v.g), k, w);
    var t2 := Add(BigSigma0(v.a), Maj(v.a, v.b, v.c));
    Vars(Add(t1, t2), v.a, v.b, v.c, Add(v.d, t1), v.e, v.f, v.g)
  }

  function Rounds(v: Vars, block: seq<byte>, t: nat): Vars
    requires |block| == BLOCK_SIZE && t <= 64
  {
    if t == 0 then v else Round(Rounds(v, block, t - 1), K(t - 1), Schedule(block, t - 1))
  }

  function VarsOf(s: seq<Word>): Vars
    requires |s| == 8
  {
    Vars(s[0], s[1], s[2], s[3], s[4], s[5], s[6], s[7])
  }

  function Compress(state: seq<Word>, block: seq<byte>): (r: seq<Word>)
    requires |state| == 8 && |block| == BLOCK_SIZE
    ensures |r| == 8
  {
    var v := Rounds(VarsOf(state), block, 64);
    [ Add(state[0], v.a), Add(state[1], v.b), Add(state[2], v.c), Add(state[3], v.d),
      Add(state[4], v.e), Add(state[5], v.f), Add(state[6], v.g), Add(state[7], v.h) ]
  }

  // ---------------------------------------------------------------------------------------------
  // The rewritten macros

  function ChMacro(x: Word, y: Word, z: Word): Word { (x & (y ^ z)) ^ z }

  function MajMacro(x: Word, y: Word, z: Word): Word { (x & (y | z)) | (y & z) }

  lemma ChoiceIdentity(x: Word, y: Word, z: Word)
    ensures (x & (y ^ z)) ^ z == (x & y) ^ (!x & z)
  {
  }

  lemma MajorityIdentity(x: Word, y: Word, z: Word)
    ensures (x & (y | z)) | (y & z) == (x & y) ^ (x & z) ^ (y & z)
  {
  }

  /** They compute the functions of the standard. */
  lemma ChoiceAndMajority(x: Word, y: Word, z: Word)
    ensures ChMacro(x, y, z) == Ch(x, y, z) && MajMacro(x, y, z) == Maj(x, y, z)
  {
    ChoiceIdentity(x, y, z);
    MajorityIdentity(x, y, z);
  }

  /** `h += S1(e) + Ch(e, f, g) + k`, where `k` stands for W + K. */
  function T1Macro(h: Word, sigma: Word, ch: Word, k: Word, w: Word): Word { h + (sigma + ch + w + k) }

  lemma SumsAgree(h: Word, sigma: Word, ch: Word, k: Word, w: Word)
    ensures T1Macro(h, sigma, ch, k, w) == T1(h, sigma, ch, k, w)
  {
  }

  // ---------------------------------------------------------------------------------------------
  // Rotating registers

  /** The register that plays the part of the `j`-th working variable in round `i` of a group. */
  function Register(i: nat, j: nat): (r: nat)
    requires i <= 16 && j < 8
    ensures r < 8
  {
    (64 + j - i) % 8
  }

  /** The working variables as they are spread over the registers before round `i`. */
  function View(s: seq<Word>, i: nat): Vars
    requires |s| == 8 && i <= 16
  {
    Vars(s[Register(i, 0)], s[Register(i, 1)], s[Register(i, 2)], s[Register(i, 3)],
         s[Register(i, 4)], s[Register(i, 5)], s[Register(i, 6)], s[Register(i, 7)])
  }

  function Rotated(i: nat, j: nat): int {
    if i <= j then j - i else if i <= j + 8 then j + 8 - i else j + 16 - i
  }

  lemma RegisterValue(i: nat, j: nat)
    requires i <= 16 && j < 8
    ensures Register(i, j) == Rotated(i, j)
  {
    var q := if i <= j then 8 else if i <= j + 8 then 7 else 6;
    assert 64 + j - i == 8 * q + Rotated(i, j);
  }

  lemma RegisterValues(i: nat)
    requires i <= 16
    ensures Register(i, 0) == Rotated(i, 0) && Register(i, 1) == Rotated(i, 1)
    ensures Register(i, 2) == Rotated(i, 2) && Register(i, 3) == Rotated(i, 3)
    ensures Register(i, 4) == Rotated(i, 4) && Register(i, 5) == Rotated(i, 5)
    ensures Register(i, 6) == Rotated(i, 6) && Register(i, 7) == Rotated(i, 7)
    ensures forall j, k :: 0 <= j < k < 8 ==> Register(i, j) != Register(i, k)
  {
    hide Register;
    forall j | 0 <= j < 8
      ensures Register(i, j) == Rotated(i, j)
    {
      RegisterValue(i, j);
    }
  }

  /** From one round to the next each variable takes over the register of the one before it. */
  lemma RegistersRotate(i: nat)
    requires i < 16
    ensures Register(i + 1, 0) == Register(i, 7)
    ensures Register(i + 1, 1) == Register(i, 0) && Register(i + 1, 2) == Register(i, 1)
    ensures Register(i + 1, 3) == Register(i, 2) && Register(i + 1, 4) == Register(i, 3)
    ensures Register(i + 1, 5) == Register(i, 4) && Register(i + 1, 6) == Register(i, 5)
    ensures Register(i + 1, 7) == Register(i, 6)
    ensures forall j, k :: 0 <= j < k < 8 ==> Register(i, j) != Register(i, k)
  {
    hide Register;
    RegisterValues(i);
    RegisterValues(i + 1);
  }

  /** What `RNDr` does to two of eight registers. */
  method RoundOn(s: array<Word>, a: nat, b: nat, c: nat, d: nat, e: nat, f: nat, g: nat, h: nat, k: Word, w: Word)
    requires s.Length == 8 && a < 8 && b < 8 && c < 8 && d < 8 && e < 8 && f < 8 && g < 8 && h < 8
    requires h != a && h != b && h != c && h != d && d != a && d != b && d != c
    modifies s
    ensures forall j :: 0 <= j < 8 && j != d && j != h ==> s[j] == old(s[j])
    ensures var t1 := T1(old(s[h]), BigSigma1(old(s[e])), Ch(old(s[e]), old(s[f]), old(s[g])), k, w);
            && s[d] == Add(old(s[d]), t1)
            && s[h] == Add(t1, Add(BigSigma0(old(s[a])), Maj(old(s[a]), old(s[b]), old(s[c]))))
  {
    hide BigSigma0, BigSigma1, ChMacro, MajMacro, Ch, Maj, Add, T1, T1Macro;
    ChoiceAndMajority(s[e], s[f], s[g]);
    ChoiceAndMajority(s[a], s[b], s[c]);
    SumsAgree(s[h], BigSigma1(s[e]), Ch(s[e], s[f], s[g]), k, w);
    s[h] := T1Macro(s[h], BigSigma1(s[e]), ChMacro(s[e], s[f], s[g]), k, w);
    s[d] := Add(s[d], s[h]);
    s[h] := Add(s[h], Add(BigSigma0(s[a]), MajMacro(s[a], s[b], s[c])));
  }

  /** `RNDr`: one round, which rewrites two registers only. */
  method RotatedRound(s: array<Word>, i: nat, k: Word, w: Word)
    requires s.Length == 8 && i < 16
    modifies s
    ensures View(s[..], i + 1) == Round(View(old(s[..]), i), k, w)
  {
    hide BigSigma0, BigSigma1, Ch, Maj, Add, T1, Register;
    RegistersRotate(i);
    RoundOn(s, Register(i, 0), Register(i, 1), Register(i, 2), Register(i, 3),
            Register(i, 4), Register(i, 5), Register(i, 6), Register(i, 7), k, w);
  }

  // ---------------------------------------------------------------------------------------------
  // The whole function

  /** `be32dec_vect` on a block. */
  method DecodeBlock(block: seq<byte>, w: array<Word>)
    requires |block| == BLOCK_SIZE && w.Length == 64
    modifies w
    ensures forall t :: 0 <= t < 16 ==> w[t] == WordOf(block[4 * t..4 * t + 4])
  {
    hide WordOf;
    for i := 0 to 16
      invariant forall t :: 0 <= t < i ==> w[t] == WordOf(block[4 * t..4 * t + 4])
    {
      w[i] := WordOf(block[4 * i..4 * i + 4]);
    }
  }

  ghost predicate Scheduled(w: seq<Word>, block: seq<byte>, n: nat)
    requires |block| == BLOCK_SIZE
  {
    n <= 64 == |w| && forall t :: 0 <= t < n ==> w[t] == Schedule(block, t)
  }

  /** The sixteen `RNDr` lines, from round `ii` on. */
  method SixteenRounds(s: array<Word>, w: array<Word>, ii: nat, ghost v: Vars, ghost block: seq<byte>)
    requires s.Length == 8 && w.Length == 64 && s != w && ii <= 48 && |block| == BLOCK_SIZE
    requires Scheduled(w[..], block, ii + 16) && View(s[..], 0) == Rounds(v, block, ii)
    modifies s
    ensures View(s[..], 0) == Rounds(v, block, ii + 16)
  {
    hide Round, View, K, Schedule;
    for i := 0 to 16
      invariant View(s[..], i) == Rounds(v, block, ii + i)
    {
      assert w[..][ii + i] == Schedule(block, ii + i);
      RotatedRound(s, i, K(ii + i), w[ii + i]);
    }
    ViewsAgree(s[..]);
  }

  lemma ViewsAgree(s: seq<Word>)
    requires |s| == 8
    ensures View(s, 16) == View(s, 0) == VarsOf(s)
  {
  }

  /** The sixteen `MSCH` lines. */
  method SixteenWords(w: array<Word>, ii: nat, ghost block: seq<byte>)
    requires w.Length == 64 && ii <= 32 && |block| == BLOCK_SIZE
    requires Scheduled(w[..], block, ii + 16)
    modifies w
    ensures Scheduled(w[..], block, ii + 32)
  {
    hide SmallSigma0, SmallSigma1, Add, WordOf;
    for i := 0 to 16
      invariant Scheduled(w[..], block, ii + 16 + i)
    {
      assert forall t :: 0 <= t < ii + 16 + i ==> w[t] == w[..][t];
      w[i + ii + 16] :=
        Add(Add(Add(SmallSigma1(w[i + ii + 14]), w[i + ii + 9]), SmallSigma0(w[i + ii + 1])), w[i + ii]);
    }
  }

  /** The loop of `transform`: sixteen rounds at a time, and the words for the next sixteen. */
  method AllRounds(s: array<Word>, w: array<Word>, ghost v: Vars, ghost block: seq<byte>)
    requires s.Length == 8 && w.Length == 64 && s != w && |block| == BLOCK_SIZE
    requires Scheduled(w[..], block, 16) && View(s[..], 0) == v
    modifies s, w
    ensures View(s[..], 0) == Rounds(v, block, 64)
  {
    hide View, Rounds, Scheduled;
    NoRounds(v, block);
    var i := 0;
    while i < 64
      invariant i == 0 || i == 16 || i == 32 || i == 48 || i == 64
      invariant i < 64 ==> Scheduled(w[..], block, i + 16)
      invariant View(s[..], 0) == Rounds(v, block, i)
    {
      SixteenRounds(s, w, i, v, block);
      if i < 48 {
        SixteenWords(w, i, block);
      }
      i := i + 16;
    }
  }

  /** `transform` computes the compression function of the standard. */
  method Transform(state: array<Word>, block: seq<byte>)
    requires state.Length == 8 && |block| == BLOCK_SIZE
    modifies state
    ensures state[..] == Compress(old(state[..]), block)
  {
    hide View, Rounds, Add, WordOf, Scheduled, Compress;
    var w := new Word[64](_ => 0);
    DecodeBlock(block, w);
    FirstWords(w[..], block);
    var s := new Word[8](i requires 0 <= i < 8 reads state => state[i]);
    ghost var v := VarsOf(state[..]);
    ViewsAgree(s[..]);
    AllRounds(s, w, v, block);
    ViewsAgree(s[..]);
    AddInto(state, s);
    CompressIs(old(state[..]), block, s[..], state[..]);
  }

  lemma CompressIs(state: seq<Word>, block: seq<byte>, s: seq<Word>, t: seq<Word>)
    requires |state| == |s| == |t| == 8 && |block| == BLOCK_SIZE
    requires VarsOf(s) == Rounds(VarsOf(state), block, 64) && forall i :: 0 <= i < 8 ==> t[i] == Add(state[i], s[i])
    ensures t == Compress(state, block)
  {
    hide Rounds, Add, Compress;
    CompressedWords(state, block, VarsOf(s));
    EightWords(t);
  }

  lemma CompressedWords(state: seq<Word>, block: seq<byte>, v: Vars)
    requires |state| == 8 && |block| == BLOCK_SIZE && v == Rounds(VarsOf(state), block, 64)
    ensures Compress(state, block) ==
      [ Add(state[0], v.a), Add(state[1], v.b), Add(state[2], v.c), Add(state[3], v.d),
        Add(state[4], v.e), Add(state[5], v.f), Add(state[6], v.g), Add(state[7], v.h) ]
  {
    hide Rounds, Add, VarsOf;
  }

  lemma EightWords(t: seq<Word>)
    requires |t| == 8
    ensures t == [t[0], t[1], t[2], t[3], t[4], t[5], t[6], t[7]]
  {
  }

  lemma FirstWords(w: seq<Word>, block: seq<byte>)
    requires |block| == BLOCK_SIZE && |w| == 64
    requires forall t :: 0 <= t < 16 ==> w[t] == WordOf(block[4 * t..4 * t + 4])
    ensures Scheduled(w, block, 16)
  {
  }

  lemma NoRounds(v: Vars, block: seq<byte>)
    requires |block| == BLOCK_SIZE
    ensures Rounds(v, block, 0) == v
  {
  }

  /** The last loop mixes the working variables into the state. */
  method AddInto(state: array<Word>, s: array<Word>)
    requires state.Length == s.Length == 8 && state != s
    modifies state
    ensures forall i :: 0 <= i < 8 ==> state[i] == Add(old(state[i]), s[i])
  {
    hide Add;
    for i := 0 to 8
      invariant forall j :: 0 <= j < i ==> state[j] == Add(old(state[j]), s[j])
      invariant forall j :: i <= j < 8 ==> state[j] == old(state[j])
    {
      state[i] := Add(state[i], s[i]);
    }
  }
}
