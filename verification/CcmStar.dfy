/** CCM*: os/lib/ccm-star.c against sections 2.2 and 2.3 of RFC 3610 with L = 2.  The block cipher is
    any function on blocks. */
module CcmStar {
  import opened Common
  import opened ByteStrings
  import opened Bits
  import opened Aes128

  const NONCE_LENGTH := 13

  type Nonce = s: seq<byte> | |s| == NONCE_LENGTH witness Zeros(13)
  type BlockFunction = Block -> Block

  // ---------------------------------------------------------------------------------------------
  // RFC 3610

  function Padding(n: nat): (p: nat)
    ensures p < AES_BLOCK_SIZE && (n + p) % AES_BLOCK_SIZE == 0
    ensures 0 < n <= AES_BLOCK_SIZE ==> p == AES_BLOCK_SIZE - n
  {
    (AES_BLOCK_SIZE - n % AES_BLOCK_SIZE) % AES_BLOCK_SIZE
  }

  function PadZero(s: seq<byte>): (r: seq<byte>)
    ensures |r| % AES_BLOCK_SIZE == 0
  {
    s + Zeros(Padding(|s|))
  }

  /** X_{i+1} := E(K, X_i XOR B_i), from `x` on. */
  function CbcMac(e: BlockFunction, x: Block, blocks: seq<byte>): Block
    requires |blocks| % AES_BLOCK_SIZE == 0
    decreases |blocks|
  {
    if blocks == [] then x else CbcMac(e, e(Xor(x, blocks[..AES_BLOCK_SIZE])), blocks[AES_BLOCK_SIZE..])
  }

  /** Flags = 64 * Adata + 8 * M' + L' */
  function Flags(adata: bool, micLen: nat): (f: nat)
    requires 4 <= micLen
    ensures micLen <= 16 ==> f < 128
  {
    (if adata then 64 else 0) + 8 * ((micLen - 2) / 2) + 1
  }

  function FirstBlock(nonce: Nonce, mLen: nat, adata: bool, micLen: nat): Block
    requires 4 <= micLen <= 16
  {
    [Flags(adata, micLen) as byte] + nonce + BigEndian(mLen, 2)
  }

  /** How the length of the additional data is written before it. */
  function LengthPrefix(aLen: nat): seq<byte> {
    if aLen < 0xff00 then BigEndian(aLen, 2) else [0xff, 0xfe] + BigEndian(aLen, 4)
  }

  function AuthBlocks(prefix: seq<byte>, a: seq<byte>, m: seq<byte>): (r: seq<byte>)
    ensures |r| % AES_BLOCK_SIZE == 0
  {
    var data := if a == [] then [] else PadZero(prefix + a);
    MultiplesAdd(|data|, |PadZero(m)|, AES_BLOCK_SIZE);
    data + PadZero(m)
  }

  function CounterBlock(nonce: Nonce, counter: nat): Block {
    [1] + nonce + BigEndian(counter, 2)
  }

  /** S_from | S_{from+1} | ... , `n` blocks of it */
  function KeyStream(e: BlockFunction, nonce: Nonce, from: nat, n: nat): (r: seq<byte>)
    ensures |r| == AES_BLOCK_SIZE * n
  {
    if n == 0 then [] else KeyStream(e, nonce, from, n - 1) + e(CounterBlock(nonce, from + n - 1))
  }

  /** The message XOR the first octets of S_1 | S_2 | ... */
  function Crypt(e: BlockFunction, nonce: Nonce, m: seq<byte>): (r: seq<byte>)
    ensures |r| == |m|
  {
    Xor(m, KeyStream(e, nonce, 1, BlocksIn(|m|))[..|m|])
  }

  function BlocksIn(n: nat): (b: nat)
    ensures AES_BLOCK_SIZE * (b - 1) < n <= AES_BLOCK_SIZE * b
  {
    (n + AES_BLOCK_SIZE - 1) / AES_BLOCK_SIZE
  }

  /** U := T XOR first-M-bytes(S_0), for some way of writing the length of the additional data. */
  function MicOver(e: BlockFunction, nonce: Nonce, m: seq<byte>, a: seq<byte>, micLen: nat,
                   prefix: seq<byte>): (r: seq<byte>)
    requires 4 <= micLen <= 16
    ensures |r| == micLen
  {
    var x := CbcMac(e, e(FirstBlock(nonce, |m|, a != [], micLen)), AuthBlocks(prefix, a, m));
    Xor(x, e(CounterBlock(nonce, 0)))[..micLen]
  }

  function Mic(e: BlockFunction, nonce: Nonce, m: seq<byte>, a: seq<byte>, micLen: nat): (r: seq<byte>)
    requires 4 <= micLen <= 16
    ensures |r| == micLen
  {
    MicOver(e, nonce, m, a, micLen, LengthPrefix(|a|))
  }

  /** The blocks of packet vector 1 in section 8 of RFC 3610: eight bytes of additional data, a message of 23 bytes and
      a MIC of eight. */
  lemma BlocksOfPacketVector(a: seq<byte>, m: seq<byte>)
    requires |a| == 8 && |m| == 23
    ensures var nonce: Nonce := [0x00, 0x00, 0x00, 0x03, 0x02, 0x01, 0x00, 0xA0, 0xA1, 0xA2, 0xA3, 0xA4, 0xA5];
      && FirstBlock(nonce, 23, true, 8) == [0x59] + nonce + [0x00, 0x17]
      && CounterBlock(nonce, 1) == [0x01] + nonce + [0x00, 0x01]
      && AuthBlocks(LengthPrefix(8), a, m) == [0x00, 0x08] + a + Zeros(6) + m + Zeros(9)
  {
    hide BigEndian, LowByte;
    TwoBytes(1);
    TwoBytes(8);
    TwoBytes(23);
    SmallLowBytes();
    assert Padding(10) == 6 && Padding(23) == 9;
  }

  /** Without data and message the MIC is the first block's encryption under that of counter 0; a message of up to a
      block is encrypted with that of counter 1. */
  lemma ShortestMessages(e: BlockFunction, nonce: Nonce, m: seq<byte>, micLen: nat)
    requires 4 <= micLen <= 16 && 0 < |m| <= AES_BLOCK_SIZE
    ensures Mic(e, nonce, [], [], micLen) ==
      Xor(e(FirstBlock(nonce, 0, false, micLen)), e(CounterBlock(nonce, 0)))[..micLen]
    ensures Crypt(e, nonce, m) == Xor(m, e(CounterBlock(nonce, 1))[..|m|])
  {
    hide FirstBlock, CounterBlock, Xor;
    assert PadZero([]) == [] && BlocksIn(|m|) == 1;
    assert KeyStream(e, nonce, 1, 0) == [];
    assert KeyStream(e, nonce, 1, 1) == e(CounterBlock(nonce, 1));
  }

  lemma SmallLowBytes()
    ensures LowByte(0) == 0 && LowByte(1) == 1 && LowByte(8) == 8 && LowByte(23) == 0x17
  {
    assert 1 % 256 == 1 && 8 % 256 == 8 && 23 % 256 == 23;
  }

  predicate MicLenValid(x: nat) {
    4 <= x <= 16 && x % 2 == 0
  }

  // ---------------------------------------------------------------------------------------------
  // The driver

  /** `set_iv` */
  function Iv(flags: byte, nonce: Nonce, counter: nat): Block {
    [flags] + nonce + [LowByte(counter / 256), LowByte(counter)]
  }

  /** `CCM_STAR_AUTH_FLAGS` */
  function AuthFlags(aLen: nat, micLen: byte): byte {
    (if aLen != 0 then 1 << 6 else 0) | (((micLen - 2) >> 1) << 3) | 1
  }

  lemma FlagsAgree(aLen: nat, micLen: nat)
    requires MicLenValid(micLen)
    ensures AuthFlags(aLen, micLen as byte) == Flags(aLen != 0, micLen) as byte
  {
    hide AuthFlags, Flags, MicLenValid;
    AuthFlagsOfEach(aLen);
    FlagsOfEach(aLen != 0);
    ValidLengths(micLen);
  }

  lemma ValidLengths(micLen: nat)
    requires MicLenValid(micLen)
    ensures micLen == 4 || micLen == 6 || micLen == 8 || micLen == 10 || micLen == 12 || micLen == 14 || micLen == 16
  {
  }

  lemma AuthFlagsOfEach(aLen: nat)
    ensures AuthFlags(aLen, 4) == if aLen != 0 then 73 else 9
    ensures AuthFlags(aLen, 6) == if aLen != 0 then 81 else 17
    ensures AuthFlags(aLen, 8) == if aLen != 0 then 89 else 25
    ensures AuthFlags(aLen, 10) == if aLen != 0 then 97 else 33
    ensures AuthFlags(aLen, 12) == if aLen != 0 then 105 else 41
    ensures AuthFlags(aLen, 14) == if aLen != 0 then 113 else 49
    ensures AuthFlags(aLen, 16) == if aLen != 0 then 121 else 57
  {
  }

  lemma FlagsOfEach(adata: bool)
    ensures Flags(adata, 4) == (if adata then 73 else 9) && Flags(adata, 6) == (if adata then 81 else 17)
    ensures Flags(adata, 8) == (if adata then 89 else 25) && Flags(adata, 10) == (if adata then 97 else 33)
    ensures Flags(adata, 12) == (if adata then 105 else 41) && Flags(adata, 14) == (if adata then 113 else 49)
    ensures Flags(adata, 16) == if adata then 121 else 57
  {
  }

  lemma IvAgrees(flags: byte, nonce: Nonce, counter: nat)
    requires counter < 0x1_0000
    ensures Iv(flags, nonce, counter) == [flags] + nonce + BigEndian(counter, 2)
  {
    hide LowByte, BigEndian;
    TwoBytes(counter);
  }

  /** A buffer with some bytes exclusively ored into it. */
  function XorAt(s: seq<byte>, at: nat, d: seq<byte>): (r: seq<byte>)
    requires at + |d| <= |s|
    ensures |r| == |s|
  {
    s[..at] + Xor(s[at..at + |d|], d) + s[at + |d|..]
  }

  /** The loops that xor bytes into a buffer. */
  method XorInto(buf: array<byte>, at: nat, d: seq<byte>)
    requires at + |d| <= buf.Length
    modifies buf
    ensures buf[..] == XorAt(old(buf[..]), at, d)
  {
    hide Plus;
    var i := 0;
    while i < |d|
      invariant 0 <= i <= |d|
      invariant forall k :: 0 <= k < at || at + i <= k < buf.Length ==> buf[k] == old(buf[k])
      invariant forall k :: at <= k < at + i ==> buf[k] == Plus(old(buf[k]), d[k - at])
    {
      buf[at + i] := Plus(buf[at + i], d[i]);
      i := i + 1;
    }
  }

  method Apply(e: BlockFunction, x: array<byte>)
    requires x.Length == AES_BLOCK_SIZE
    modifies x
    ensures x[..] == e(old(x[..]))
  {
    var y := e(x[..]);
    forall i | 0 <= i < AES_BLOCK_SIZE { x[i] := y[i]; }
  }

  /** `ctr_step`, on a message that starts at `at`. */
  method CtrStep(e: BlockFunction, nonce: Nonce, pos: nat, m: array<byte>, at: nat, mLen: nat, counter: nat)
    requires pos <= mLen && at + mLen <= m.Length && counter < 0x1_0000
    modifies m
    ensures m[..] == XorAt(old(m[..]), at + pos, e(CounterBlock(nonce, counter))[..Min(AES_BLOCK_SIZE, mLen - pos)])
  {
    IvAgrees(1, nonce, counter);
    var a := e(Iv(1, nonce, counter));
    XorInto(m, at + pos, a[..Min(AES_BLOCK_SIZE, mLen - pos)]);
  }

  // ---------------------------------------------------------------------------------------------
  // Encryption

  /** A message of which the first `n` blocks are encrypted. */
  ghost predicate Crypted(m: seq<byte>, was: seq<byte>, mLen: nat, e: BlockFunction, nonce: Nonce, n: nat)
    requires mLen <= |was|
  {
    var done := Min(AES_BLOCK_SIZE * n, mLen);
    m == Xor(was[..done], KeyStream(e, nonce, 1, n)[..done]) + was[done..]
  }

  lemma CryptStarts(was: seq<byte>, mLen: nat, e: BlockFunction, nonce: Nonce)
    requires mLen <= |was|
    ensures Crypted(was, was, mLen, e, nonce, 0)
  {
  }

  lemma CryptGoesOn(m: seq<byte>, was: seq<byte>, mLen: nat, e: BlockFunction, nonce: Nonce, n: nat)
    requires mLen <= |was| && Crypted(m, was, mLen, e, nonce, n) && AES_BLOCK_SIZE * n < mLen
    ensures |m| == |was|
    ensures var at := AES_BLOCK_SIZE * n;
            var s := e(CounterBlock(nonce, n + 1))[..Min(AES_BLOCK_SIZE, mLen - at)];
            Crypted(XorAt(m, at, s), was, mLen, e, nonce, n + 1)
  {
    hide Plus, CounterBlock, XorAt;
    var at := AES_BLOCK_SIZE * n;
    var s := e(CounterBlock(nonce, n + 1))[..Min(AES_BLOCK_SIZE, mLen - at)];
    var done := Min(AES_BLOCK_SIZE * (n + 1), mLen);
    var ks := KeyStream(e, nonce, 1, n + 1);
    assert ks[..done] == KeyStream(e, nonce, 1, n) + s;
    var x := Xor(was[..done], ks[..done]) + was[done..];
    forall i: nat | i < |was|
      ensures XorAt(m, at, s)[i] == x[i]
    {
      XorAtByte(m, at, s, i);
      assert i >= at ==> m[i] == was[i];
      assert i < done ==> x[i] == Plus(was[i], ks[i]);
    }
    assert XorAt(m, at, s) == x;
  }

  lemma CryptEnds(m: seq<byte>, was: seq<byte>, mLen: nat, e: BlockFunction, nonce: Nonce, n: nat)
    requires mLen <= |was| && Crypted(m, was, mLen, e, nonce, n) && n == BlocksIn(mLen)
    ensures m == Crypt(e, nonce, was[..mLen]) + was[mLen..]
  {
    hide Plus, KeyStream;
  }

  /** A buffer in which one part, from `at` on, has been replaced. */
  ghost predicate Replaced(now: seq<byte>, was: seq<byte>, at: nat, part: seq<byte>) {
    && |now| == |was| && at + |part| <= |now| && now[at..at + |part|] == part
    && forall k :: 0 <= k < at || at + |part| <= k < |now| ==> now[k] == was[k]
  }

  /** A step within a part of a buffer leaves the rest alone. */
  lemma XorWithin(s: seq<byte>, was: seq<byte>, at: nat, part: seq<byte>, pos: nat, d: seq<byte>)
    requires Replaced(s, was, at, part) && pos + |d| <= |part|
    ensures Replaced(XorAt(s, at + pos, d), was, at, XorAt(part, pos, d))
  {
    hide Plus, XorAt;
    var x := XorAt(s, at + pos, d);
    forall j: nat | j < |part|
      ensures x[at..at + |part|][j] == XorAt(part, pos, d)[j]
    {
      assert part[j] == s[at + j];
      XorAtByte(s, at + pos, d, at + j);
      XorAtByte(part, pos, d, j);
    }
    forall k: nat | k < at || at + |part| <= k < |s|
      ensures x[k] == was[k]
    {
      XorAtByte(s, at + pos, d, k);
    }
  }

  /** `ctr`, on a message that starts at `at`. */
  method Ctr(e: BlockFunction, nonce: Nonce, m: array<byte>, at: nat, mLen: nat)
    requires at + mLen <= m.Length && mLen < 0x1_0000
    modifies m
    ensures Replaced(m[..], old(m[..]), at, Crypt(e, nonce, old(m[at..at + mLen])))
  {
    hide Crypted, Crypt, XorAt, CounterBlock, Replaced;
    ghost var was, part, n := m[at..at + mLen], m[at..at + mLen], 0;
    CryptStarts(was, mLen, e, nonce);
    NothingReplaced(m[..], at, mLen);
    var counter := 1;
    var pos := 0;
    while pos < mLen
      invariant pos == AES_BLOCK_SIZE * n && n <= BlocksIn(mLen) && counter == n + 1
      invariant |part| == mLen && Replaced(m[..], old(m[..]), at, part)
      invariant Crypted(part, was, mLen, e, nonce, n)
    {
      ghost var s := e(CounterBlock(nonce, counter))[..Min(AES_BLOCK_SIZE, mLen - pos)];
      CryptGoesOn(part, was, mLen, e, nonce, n);
      XorWithin(m[..], old(m[..]), at, part, pos, s);
      CtrStep(e, nonce, pos, m, at, mLen, counter);
      part := XorAt(part, pos, s);
      pos, counter, n := pos + AES_BLOCK_SIZE, (counter + 1) % 0x1_0000, n + 1;
    }
    CryptEnds(part, was, mLen, e, nonce, n);
    assert was[..mLen] == was && was[mLen..] == [] && Crypt(e, nonce, was) + [] == Crypt(e, nonce, was);
  }

  lemma NothingReplaced(s: seq<byte>, at: nat, n: nat)
    requires at + n <= |s|
    ensures Replaced(s, s, at, s[at..at + n])
  {
  }

  /** Encrypting again under the same nonce gives the message back. */
  lemma CryptTwice(e: BlockFunction, nonce: Nonce, m: seq<byte>)
    ensures Crypt(e, nonce, Crypt(e, nonce, m)) == m
  {
    hide KeyStream;
    XorTwice(m, KeyStream(e, nonce, 1, BlocksIn(|m|))[..|m|]);
  }

  /** No two calls of the cipher for the key stream of one message, including the one for the MIC, are
      on the same block, and none is on the block that starts the MIC. */
  lemma CounterBlocksDiffer(nonce: Nonce, mLen: nat, adata: bool, micLen: nat, i: nat, j: nat)
    requires mLen < 0x1_0000 && MicLenValid(micLen) && i < j <= BlocksIn(mLen)
    ensures CounterBlock(nonce, i) != CounterBlock(nonce, j)
    ensures FirstBlock(nonce, mLen, adata, micLen) != CounterBlock(nonce, j)
    ensures FirstBlock(nonce, mLen, adata, micLen) != CounterBlock(nonce, i)
  {
    hide Iv;
    IvEnds(nonce, i);
    IvEnds(nonce, j);
    ByteIsFaithful(i / 256, j / 256);
    ByteIsFaithful(i % 256, j % 256);
    FlagsAreNotOne(adata, micLen);
    assert FirstBlock(nonce, mLen, adata, micLen)[0] == Flags(adata, micLen) as byte;
  }

  /** Under AES the blocks of the key stream are therefore all different too. */
  lemma KeyStreamNeverRepeats(key: Block, nonce: Nonce, mLen: nat, i: nat, j: nat)
    requires mLen < 0x1_0000 && i < j <= BlocksIn(mLen)
    ensures Cipher(key, CounterBlock(nonce, i)) != Cipher(key, CounterBlock(nonce, j))
  {
    hide Cipher, CounterBlock;
    CounterBlocksDiffer(nonce, mLen, true, 16, i, j);
    CipherIsInjective(key, CounterBlock(nonce, i), CounterBlock(nonce, j));
  }

  lemma IvEnds(nonce: Nonce, counter: nat)
    requires counter < 0x1_0000
    ensures CounterBlock(nonce, counter)[0] == 1
    ensures CounterBlock(nonce, counter)[14] == (counter / 256) as byte
    ensures CounterBlock(nonce, counter)[15] == (counter % 256) as byte
  {
    IvAgrees(1, nonce, counter);
  }

  lemma ByteIsFaithful(x: nat, y: nat)
    requires x < 256 && y < 256
    ensures x as byte == y as byte <==> x == y
  {
    ByteReadsBack(x);
    ByteReadsBack(y);
  }

  lemma FlagsAreNotOne(adata: bool, micLen: nat)
    requires MicLenValid(micLen)
    ensures Flags(adata, micLen) < 256 && Flags(adata, micLen) as byte != 1
  {
  }

  // ---------------------------------------------------------------------------------------------
  // Authentication

  lemma PadZeroAt(s: seq<byte>, i: nat)
    ensures |PadZero(s)| == |s| + Padding(|s|)
    ensures i < |PadZero(s)| ==> PadZero(s)[i] == if i < |s| then s[i] else 0
  {
    hide Padding;
  }

  lemma PaddingOfRest(n: nat)
    requires n >= AES_BLOCK_SIZE
    ensures Padding(n - AES_BLOCK_SIZE) == Padding(n)
  {
    DivModParts(n, AES_BLOCK_SIZE);
    ModIsUnique(n - AES_BLOCK_SIZE, AES_BLOCK_SIZE, n / AES_BLOCK_SIZE - 1, n % AES_BLOCK_SIZE);
  }

  /** Whole blocks before it do not change how a string is padded. */
  lemma {:induction false} PaddedInParts(a: seq<byte>, b: seq<byte>)
    requires |a| % AES_BLOCK_SIZE == 0
    ensures PadZero(a + b) == a + PadZero(b)
  {
    hide Padding, PadZero;
    DivModParts(|a|, AES_BLOCK_SIZE);
    PaddingOfParts(|a| / AES_BLOCK_SIZE, |b|);
    PadZeroAt(a + b, 0);
    PadZeroAt(b, 0);
    forall i: nat | i < |PadZero(a + b)|
      ensures PadZero(a + b)[i] == (a + PadZero(b))[i]
    {
      PadZeroAt(a + b, i);
      if i >= |a| {
        PadZeroAt(b, i - |a|);
      }
    }
  }

  lemma {:induction false} PaddingOfParts(q: nat, k: nat)
    ensures Padding(q * AES_BLOCK_SIZE + k) == Padding(k)
  {
    hide Padding;
    if q > 0 {
      PaddingOfRest(q * AES_BLOCK_SIZE + k);
      PaddingOfParts(q - 1, k);
    }
  }

  /** What `x` becomes when the first block of padded data is added. */
  lemma FirstOfPadded(x: Block, d: seq<byte>)
    requires d != []
    ensures |PadZero(d)| >= AES_BLOCK_SIZE
    ensures Xor(x, PadZero(d)[..AES_BLOCK_SIZE]) == XorAt(x, 0, d[..Min(AES_BLOCK_SIZE, |d|)])
  {
    hide Plus, Padding, PadZero, XorAt;
    var n := Min(AES_BLOCK_SIZE, |d|);
    PadZeroAt(d, 0);
    forall i: nat | i < AES_BLOCK_SIZE
      ensures Xor(x, PadZero(d)[..AES_BLOCK_SIZE])[i] == XorAt(x, 0, d[..n])[i]
    {
      PadZeroAt(d, i);
      XorAtByte(x, 0, d[..n], i);
      PlusNothing(x[i]);
    }
  }

  lemma RestOfPadded(d: seq<byte>)
    requires d != []
    ensures |PadZero(d)| >= AES_BLOCK_SIZE
    ensures PadZero(d)[AES_BLOCK_SIZE..] == PadZero(d[Min(AES_BLOCK_SIZE, |d|)..])
  {
    hide Padding, PadZero;
    PadZeroAt(d, 0);
    if |d| < AES_BLOCK_SIZE {
      assert d[|d|..] == [];
      NothingToPad();
    } else {
      assert d == d[..AES_BLOCK_SIZE] + d[AES_BLOCK_SIZE..];
      PaddedInParts(d[..AES_BLOCK_SIZE], d[AES_BLOCK_SIZE..]);
    }
  }

  lemma NothingToPad()
    ensures PadZero([]) == []
  {
  }

  /** The next block of padded data goes into the chain. */
  lemma ChainGoesOn(e: BlockFunction, x: Block, d: seq<byte>)
    requires d != []
    ensures var n := Min(AES_BLOCK_SIZE, |d|);
            CbcMac(e, x, PadZero(d)) == CbcMac(e, e(XorAt(x, 0, d[..n])), PadZero(d[n..]))
  {
    hide Xor, XorAt, Padding, PadZero;
    FirstOfPadded(x, d);
    RestOfPadded(d);
  }

  lemma NothingToChain(e: BlockFunction, x: Block)
    ensures PadZero([]) == [] && CbcMac(e, x, PadZero([])) == x
  {
  }

  lemma {:induction false} ChainAppend(e: BlockFunction, x: Block, a: seq<byte>, b: seq<byte>)
    requires |a| % AES_BLOCK_SIZE == |b| % AES_BLOCK_SIZE == 0
    ensures CbcMac(e, x, a + b) == CbcMac(e, CbcMac(e, x, a), b)
    decreases |a|
  {
    hide Xor;
    if a == [] {
      assert a + b == b;
    } else {
      assert (a + b)[..AES_BLOCK_SIZE] == a[..AES_BLOCK_SIZE] && (a + b)[AES_BLOCK_SIZE..] == a[AES_BLOCK_SIZE..] + b;
      ChainAppend(e, e(Xor(x, a[..AES_BLOCK_SIZE])), a[AES_BLOCK_SIZE..], b);
    }
  }

  /** The loops of `mic` over blocks of data, from `start` on. */
  method Absorb(e: BlockFunction, x: array<byte>, d: seq<byte>, start: nat)
    requires x.Length == AES_BLOCK_SIZE && start <= |d|
    modifies x
    ensures x[..] == CbcMac(e, old(x[..]), PadZero(d[start..]))
  {
    hide CbcMac, PadZero, XorAt;
    var pos := start;
    ghost var rest := d[start..];
    while pos < |d|
      invariant pos <= |d| ==> rest == d[pos..]
      invariant pos > |d| ==> rest == []
      invariant CbcMac(e, x[..], PadZero(rest)) == CbcMac(e, old(x[..]), PadZero(d[start..]))
    {
      var n := Min(AES_BLOCK_SIZE, |d| - pos);
      ChainGoesOn(e, x[..], rest);
      assert rest[..n] == d[pos..pos + n];
      XorInto(x, 0, d[pos..pos + n]);
      Apply(e, x);
      rest := rest[n..];
      pos := pos + AES_BLOCK_SIZE;
    }
    NothingToChain(e, x[..]);
  }

  /** The part of `mic` about additional data. */
  method AbsorbData(e: BlockFunction, x: array<byte>, a: seq<byte>)
    requires x.Length == AES_BLOCK_SIZE && 0 < |a| < 0x1_0000
    modifies x
    ensures x[..] == CbcMac(e, old(x[..]), PadZero(BigEndian(|a|, 2) + a))
  {
    hide CbcMac, PadZero, XorAt, BigEndian, LowByte;
    ghost var was, d := x[..], BigEndian(|a|, 2) + a;
    var n := Min(AES_BLOCK_SIZE - 2, |a|);
    ChainGoesOn(e, was, d);
    XorInto(x, 0, [LowByte(|a| / 256), LowByte(|a|)]);
    XorInto(x, 2, a[..n]);
    XorInTwoParts(was, |a|, a[..n]);
    assert d[..n + 2] == BigEndian(|a|, 2) + a[..n] && d[n + 2..] == a[n..];
    Apply(e, x);
    Absorb(e, x, a, n);
  }

  lemma XorInTwoParts(s: seq<byte>, n: nat, d: seq<byte>)
    requires |d| + 2 <= |s|
    ensures XorAt(XorAt(s, 0, [LowByte(n / 256), LowByte(n)]), 2, d) == XorAt(s, 0, BigEndian(n, 2) + d)
  {
    hide Plus, LowByte, BigEndian, XorAt;
    TwoBytes(n);
    XorInParts(s, [LowByte(n / 256), LowByte(n)], d);
  }

  lemma XorAtByte(s: seq<byte>, at: nat, d: seq<byte>, i: nat)
    requires at + |d| <= |s| && i < |s|
    ensures XorAt(s, at, d)[i] == if at <= i < at + |d| then Plus(s[i], d[i - at]) else s[i]
  {
    hide Plus;
  }

  lemma XorInParts(s: seq<byte>, c: seq<byte>, d: seq<byte>)
    requires |c| + |d| <= |s|
    ensures XorAt(XorAt(s, 0, c), |c|, d) == XorAt(s, 0, c + d)
  {
    hide Plus, XorAt;
    forall i: nat | i < |s|
      ensures XorAt(XorAt(s, 0, c), |c|, d)[i] == XorAt(s, 0, c + d)[i]
    {
      XorAtByte(s, 0, c, i);
      XorAtByte(XorAt(s, 0, c), |c|, d, i);
      XorAtByte(s, 0, c + d, i);
    }
  }

  lemma DataThenMessage(e: BlockFunction, x: Block, prefix: seq<byte>, a: seq<byte>, m: seq<byte>)
    ensures CbcMac(e, x, AuthBlocks(prefix, a, m)) ==
            CbcMac(e, if a == [] then x else CbcMac(e, x, PadZero(prefix + a)), PadZero(m))
  {
    hide CbcMac, PadZero;
    assert [] + PadZero(m) == PadZero(m);
    ChainAppend(e, x, PadZero(prefix + a), PadZero(m));
  }

  lemma XorWhole(x: Block, s: Block)
    ensures XorAt(x, 0, s[..AES_BLOCK_SIZE]) == Xor(x, s)
  {
    hide Plus;
  }

  /** The part of `mic` before the last step. */
  method ComputeMac(e: BlockFunction, nonce: Nonce, m: seq<byte>, a: seq<byte>, micLen: nat) returns (x: array<byte>)
    requires |m| < 0x1_0000 && |a| < 0x1_0000 && MicLenValid(micLen)
    ensures fresh(x) && x.Length == AES_BLOCK_SIZE
    ensures x[..] == CbcMac(e, e(FirstBlock(nonce, |m|, a != [], micLen)), AuthBlocks(BigEndian(|a|, 2), a, m))
  {
    hide CbcMac, PadZero, BigEndian, Flags, AuthFlags, AuthBlocks;
    FlagsAgree(|a|, micLen);
    IvAgrees(AuthFlags(|a|, micLen as byte), nonce, |m|);
    var iv := Iv(AuthFlags(|a|, micLen as byte), nonce, |m|);
    x := new byte[AES_BLOCK_SIZE](i requires 0 <= i < AES_BLOCK_SIZE => iv[i]);
    assert x[..] == iv;
    Apply(e, x);
    DataThenMessage(e, x[..], BigEndian(|a|, 2), a, m);
    if |a| != 0 {
      AbsorbData(e, x, a);
    }
    Absorb(e, x, m, 0);
    assert m[0..] == m;
  }

  /** `mic`, with the result at `at`. */
  method ComputeMic(e: BlockFunction, nonce: Nonce, m: seq<byte>, a: seq<byte>, result: array<byte>, at: nat,
                    micLen: nat)
    requires |m| < 0x1_0000 && |a| < 0x1_0000 && MicLenValid(micLen) && at + micLen <= result.Length
    modifies result
    ensures Replaced(result[..], old(result[..]), at, MicOver(e, nonce, m, a, micLen, BigEndian(|a|, 2)))
  {
    hide CbcMac, BigEndian, AuthBlocks, FirstBlock, XorAt, Xor, CounterBlock;
    var x := ComputeMac(e, nonce, m, a, micLen);
    XorWhole(x[..], e(CounterBlock(nonce, 0)));
    CtrStep(e, nonce, 0, x, 0, AES_BLOCK_SIZE, 0);
    ghost var mic := MicOver(e, nonce, m, a, micLen, BigEndian(|a|, 2));
    assert mic == x[..micLen];
    forall i | 0 <= i < micLen { result[at + i] := x[i]; }
    assert result[..][at..at + micLen] == mic;
  }

  // ---------------------------------------------------------------------------------------------
  // Both

  /** Two parts of memory that have no byte in common. */
  predicate Apart(b: array<byte>, from: nat, n: nat, c: array<byte>, start: nat, k: nat) {
    b != c || from + n <= start || start + k <= from
  }

  lemma KeptOutside(now: seq<byte>, was: seq<byte>, at: nat, part: seq<byte>, from: nat, n: nat)
    requires Replaced(now, was, at, part) && from + n <= |was| && (at + |part| <= from || from + n <= at)
    ensures now[from..from + n] == was[from..from + n]
  {
  }

  /** `aead`: on a message at `mAt` of one buffer and with the MIC at `rAt` of another or of the same. */
  method Aead(e: BlockFunction, nonce: Nonce, m: array<byte>, mAt: nat, mLen: nat, a: seq<byte>,
              result: array<byte>, rAt: nat, micLen: nat, forward: bool)
    requires mAt + mLen <= m.Length && mLen < 0x1_0000 && |a| < 0x1_0000 && micLen < 256
    requires MicLenValid(micLen) ==> rAt + micLen <= result.Length && Apart(m, mAt, mLen, result, rAt, micLen)
    modifies m, result
    ensures !MicLenValid(micLen) ==> m[..] == old(m[..]) && result[..] == old(result[..])
    ensures MicLenValid(micLen) ==>
              var plain := if forward then old(m[mAt..mAt + mLen]) else m[mAt..mAt + mLen];
              && m[mAt..mAt + mLen] == Crypt(e, nonce, old(m[mAt..mAt + mLen]))
              && result[rAt..rAt + micLen] == MicOver(e, nonce, plain, a, micLen, BigEndian(|a|, 2))
    ensures forall k :: 0 <= k < m.Length && Outside(k, mAt, mLen) && (m == result ==> Outside(k, rAt, micLen)) ==>
              m[k] == old(m[k])
    ensures forall k :: 0 <= k < result.Length && Outside(k, rAt, micLen) && (m == result ==> Outside(k, mAt, mLen)) ==>
              result[k] == old(result[k])
  {
    hide Crypt, MicOver, BigEndian;
    if !MicLenValid(micLen) {
      return;
    }
    if !forward {
      Ctr(e, nonce, m, mAt, mLen);
    }
    ghost var buf, part := m[..], m[mAt..mAt + mLen];
    ComputeMic(e, nonce, m[mAt..mAt + mLen], a, result, rAt, micLen);
    ghost var out, mic := result[..], MicOver(e, nonce, part, a, micLen, BigEndian(|a|, 2));
    if m == result {
      KeptOutside(m[..], buf, rAt, mic, mAt, mLen);
    }
    if forward {
      Ctr(e, nonce, m, mAt, mLen);
      if m == result {
        KeptOutside(result[..], out, mAt, Crypt(e, nonce, part), rAt, micLen);
      }
    }
  }

  predicate Outside(k: nat, from: nat, n: nat) {
    k < from || from + n <= k
  }

  /** What was encrypted is decrypted, with the same MIC, and up to 0xfeff bytes of additional data both are the
      RFC's.  The sender's MIC goes right behind the message, as its callers have it. */
  method ThereAndBack(e: BlockFunction, nonce: Nonce, m: seq<byte>, a: seq<byte>, micLen: nat)
    returns (cipherText: seq<byte>, mic: seq<byte>, plainText: seq<byte>, again: seq<byte>)
    requires |m| < 0x1_0000 && |a| < 0x1_0000 && MicLenValid(micLen)
    ensures plainText == m && again == mic
    ensures cipherText == Crypt(e, nonce, m)
    ensures |a| < 0xff00 ==> mic == Mic(e, nonce, m, a, micLen)
  {
    hide Crypt, MicOver, BigEndian;
    var n := |m|;
    var buf := new byte[n + micLen](i requires 0 <= i < n + micLen => if i < n then m[i] else 0);
    var generated := new byte[micLen](_ => 0);
    assert buf[0..n] == m;
    Aead(e, nonce, buf, 0, n, a, buf, n, micLen, true);
    cipherText, mic := buf[0..n], buf[n..n + micLen];
    CryptTwice(e, nonce, m);
    Aead(e, nonce, buf, 0, n, a, generated, 0, micLen, false);
    plainText, again := buf[0..n], generated[0..micLen];
  }

  /** The length is written as the RFC wants it exactly up to 0xfeff bytes. */
  lemma TwoByteLengths(aLen: nat)
    requires aLen < 0x1_0000
    ensures BigEndian(aLen, 2) == LengthPrefix(aLen) <==> aLen < 0xff00
  {
    assert |LengthPrefix(aLen)| == if aLen < 0xff00 then 2 else 6;
  }

  // ---------------------------------------------------------------------------------------------
  // More data than that

  ghost predicate OneToOne(e: BlockFunction) {
    forall b, c :: e(b) == e(c) ==> b == c
  }

  /** A chain can be undone. */
  lemma {:induction false} ChainIsInjective(e: BlockFunction, x: Block, y: Block, blocks: seq<byte>)
    requires OneToOne(e) && |blocks| % AES_BLOCK_SIZE == 0
    ensures CbcMac(e, x, blocks) == CbcMac(e, y, blocks) <==> x == y
    decreases |blocks|
  {
    hide Xor;
    if blocks != [] {
      var b := blocks[..AES_BLOCK_SIZE];
      XorTwice(x, b);
      XorTwice(y, b);
      ChainIsInjective(e, e(Xor(x, b)), e(Xor(y, b)), blocks[AES_BLOCK_SIZE..]);
    }
  }

  lemma PlusCancels(x: byte, a: byte, b: byte)
    ensures Plus(x, a) == Plus(x, b) <==> a == b
  {
    hide Plus;
    PlusAssociates(x, x, a);
    PlusAssociates(x, x, b);
    PlusNothing(x);
    PlusNothing(a);
    PlusNothing(b);
  }

  /** The chain before the block with the last byte of `t + [b]`, and that block. */
  function BeforeLast(e: BlockFunction, x: Block, t: seq<byte>): Block {
    CbcMac(e, x, t[..|t| - |t| % AES_BLOCK_SIZE])
  }

  function LastBlock(t: seq<byte>, b: byte): Block {
    PadZero(t[|t| - |t| % AES_BLOCK_SIZE..] + [b])
  }

  lemma LastStep(e: BlockFunction, x: Block, t: seq<byte>, b: byte)
    ensures CbcMac(e, x, PadZero(t + [b])) == e(Xor(BeforeLast(e, x, t), LastBlock(t, b)))
  {
    hide Xor, PadZero;
    var k := |t| - |t| % AES_BLOCK_SIZE;
    var last := LastBlock(t, b);
    assert t + [b] == t[..k] + (t[k..] + [b]);
    PaddedInParts(t[..k], t[k..] + [b]);
    ChainAppend(e, x, t[..k], last);
    assert last[..AES_BLOCK_SIZE] == last && last[AES_BLOCK_SIZE..] == [];
  }

  lemma LastBlockAt(t: seq<byte>, b: byte, i: nat)
    requires i < AES_BLOCK_SIZE
    ensures LastBlock(t, b)[i] == if i == |t| % AES_BLOCK_SIZE then b else LastBlock(t, 0)[i]
  {
    hide Padding, PadZero;
    var tail := t[|t| - |t| % AES_BLOCK_SIZE..];
    PadZeroAt(tail + [b], i);
    PadZeroAt(tail + [0], i);
  }

  /** Strings that end in different places of a block cannot give the same chain for two last bytes. */
  lemma OneEndDiffers(e: BlockFunction, x: Block, s: seq<byte>, t: seq<byte>)
    requires OneToOne(e) && |s| % AES_BLOCK_SIZE != |t| % AES_BLOCK_SIZE
    ensures exists b: byte :: CbcMac(e, x, PadZero(s + [b])) != CbcMac(e, x, PadZero(t + [b]))
  {
    hide CbcMac, PadZero, Plus, BeforeLast, LastBlock, Xor;
    if forall b: byte :: CbcMac(e, x, PadZero(s + [b])) == CbcMac(e, x, PadZero(t + [b])) {
      var i := |s| % AES_BLOCK_SIZE;
      SameEnd(e, x, s, t, 0, i);
      SameEnd(e, x, s, t, 1, i);
      LastBlockAt(s, 0, i);
      LastBlockAt(s, 1, i);
      LastBlockAt(t, 1, i);
      PlusCancels(BeforeLast(e, x, s)[i], 0, 1);
    }
  }

  lemma SameEnd(e: BlockFunction, x: Block, s: seq<byte>, t: seq<byte>, b: byte, i: nat)
    requires OneToOne(e) && i < AES_BLOCK_SIZE
    requires CbcMac(e, x, PadZero(s + [b])) == CbcMac(e, x, PadZero(t + [b]))
    ensures Plus(BeforeLast(e, x, s)[i], LastBlock(s, b)[i]) == Plus(BeforeLast(e, x, t)[i], LastBlock(t, b)[i])
  {
    hide CbcMac, PadZero, Plus, BeforeLast, LastBlock;
    LastStep(e, x, s, b);
    LastStep(e, x, t, b);
    var sum, other := Xor(BeforeLast(e, x, s), LastBlock(s, b)), Xor(BeforeLast(e, x, t), LastBlock(t, b));
    assert sum == other;
    assert sum[i] == other[i];
  }

  /** With a MIC of a whole block, the chains after the data agree if the MICs do. */
  lemma ChainsAgree(e: BlockFunction, nonce: Nonce, m: seq<byte>, a: seq<byte>, prefix: seq<byte>, other: seq<byte>)
    requires OneToOne(e) && a != []
    requires MicOver(e, nonce, m, a, 16, prefix) == MicOver(e, nonce, m, a, 16, other)
    ensures var x := e(FirstBlock(nonce, |m|, true, 16));
            CbcMac(e, x, PadZero(prefix + a)) == CbcMac(e, x, PadZero(other + a))
  {
    hide CbcMac, PadZero, AuthBlocks, FirstBlock, Xor, CounterBlock;
    var x, s0 := e(FirstBlock(nonce, |m|, true, 16)), e(CounterBlock(nonce, 0));
    var y, z := CbcMac(e, x, AuthBlocks(prefix, a, m)), CbcMac(e, x, AuthBlocks(other, a, m));
    assert Xor(y, s0)[..16] == Xor(y, s0) && Xor(z, s0)[..16] == Xor(z, s0);
    XorTwice(y, s0);
    XorTwice(z, s0);
    DataThenMessage(e, x, prefix, a, m);
    DataThenMessage(e, x, other, a, m);
    ChainIsInjective(e, CbcMac(e, x, PadZero(prefix + a)), CbcMac(e, x, PadZero(other + a)), PadZero(m));
  }

  /** The MIC of `mic`, sixteen bytes of it, is the RFC's. */
  ghost predicate IsStandard(e: BlockFunction, nonce: Nonce, m: seq<byte>, a: seq<byte>) {
    MicOver(e, nonce, m, a, 16, BigEndian(|a|, 2)) == Mic(e, nonce, m, a, 16)
  }

  /** Whatever one-to-one block function is used, whether all MICs are the RFC's depends on the length of the
      additional data alone. */
  lemma StandardUpToFeff(e: BlockFunction, nonce: Nonce, m: seq<byte>, aLen: nat)
    requires OneToOne(e) && |m| < 0x1_0000 && aLen < 0x1_0000
    ensures (forall a: seq<byte> :: |a| == aLen ==> IsStandard(e, nonce, m, a)) <==> aLen < 0xff00
  {
    hide MicOver, BigEndian, CbcMac, PadZero, OneToOne;
    TwoByteLengths(aLen);
    if aLen >= 0xff00 {
      var x := e(FirstBlock(nonce, |m|, true, 16));
      var zeros, prefix, other := Zeros(aLen - 1), BigEndian(aLen, 2), LengthPrefix(aLen);
      OneEndDiffers(e, x, prefix + zeros, other + zeros);
      var b: byte :| CbcMac(e, x, PadZero(prefix + zeros + [b])) != CbcMac(e, x, PadZero(other + zeros + [b]));
      var a := zeros + [b];
      assert prefix + zeros + [b] == prefix + a && other + zeros + [b] == other + a;
      if IsStandard(e, nonce, m, a) {
        ChainsAgree(e, nonce, m, a, prefix, other);
      }
    }
  }

  /** The block function of the driver under a key. */
  function Aes(key: Block): BlockFunction {
    b => Cipher(key, b)
  }

  /** At every greater length, and under every key, there is data for which the MIC is not the RFC's. */
  lemma LongDataIsNotStandard(key: Block, nonce: Nonce, m: seq<byte>, aLen: nat)
    requires |m| < 0x1_0000 && aLen < 0x1_0000
    ensures (exists a: seq<byte> :: |a| == aLen && !IsStandard(Aes(key), nonce, m, a)) <==> 0xff00 <= aLen
  {
    hide Cipher, IsStandard;
    forall b, c | Aes(key)(b) == Aes(key)(c)
      ensures b == c
    {
      CipherIsInjective(key, b, c);
    }
    StandardUpToFeff(Aes(key), nonce, m, aLen);
  }
}
