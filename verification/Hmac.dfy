/** HMAC and HKDF over the SHA-256 session: os/lib/sha-256.c against section 2 of RFC 2104 and
    sections 2.2 and 2.3 of RFC 5869. */
module Hmac {
  import opened Common
  import opened ByteStrings
  import opened Sha256Block
  import opened Sha256

  // ---------------------------------------------------------------------------------------------
  // The standards

  /** The key as a whole block. */
  function BlockKey(key: seq<byte>): (r: seq<byte>)
    ensures |r| == BLOCK_SIZE
  {
    var k := if |key| > BLOCK_SIZE then Digest(key) else key;
    k + Zeros(BLOCK_SIZE - |k|)
  }

  function Masked(block: seq<byte>, pad: byte): (r: seq<byte>)
    ensures |r| == |block|
  {
    seq(|block|, i requires 0 <= i < |block| => block[i] ^ pad)
  }

  function Hmac(key: seq<byte>, text: seq<byte>): (r: seq<byte>)
    ensures |r| == DIGEST_LENGTH
  {
    Digest(Masked(BlockKey(key), 0x5c) + Digest(Masked(BlockKey(key), 0x36) + text))
  }

  /** T(i) of the expansion. */
  function T(prk: seq<byte>, info: seq<byte>, i: nat): (r: seq<byte>)
    requires i < 256
    ensures |r| == if i == 0 then 0 else DIGEST_LENGTH
  {
    if i == 0 then [] else Hmac(prk, T(prk, info, i - 1) + info + [i as byte])
  }

  /** T(1) | T(2) | ... | T(n) */
  function Blocks(prk: seq<byte>, info: seq<byte>, n: nat): (r: seq<byte>)
    requires n < 256
    ensures |r| == DIGEST_LENGTH * n
  {
    if n == 0 then [] else Blocks(prk, info, n - 1) + T(prk, info, n)
  }

  function Expand(prk: seq<byte>, info: seq<byte>, length: nat): (r: seq<byte>)
    requires length <= 255 * DIGEST_LENGTH
    ensures |r| == length
  {
    Blocks(prk, info, BlocksFor(length))[..length]
  }

  function BlocksFor(length: nat): (n: nat)
    ensures DIGEST_LENGTH * n >= length > DIGEST_LENGTH * (n - 1)
  {
    length / DIGEST_LENGTH + if length % DIGEST_LENGTH != 0 then 1 else 0
  }

  /** Without a key the inner padding is 64 times 0x36 and the outer 64 times 0x5c. */
  lemma HmacWithoutKey(text: seq<byte>)
    ensures Hmac([], text) == Digest(seq(64, _ => 0x5c) + Digest(seq(64, _ => 0x36) + text))
  {
    hide Digest;
    ZeroIsNeutral(0x36);
    ZeroIsNeutral(0x5c);
    assert BlockKey([]) == Zeros(64);
    assert Masked(Zeros(64), 0x36) == seq(64, _ => 0x36);
    assert Masked(Zeros(64), 0x5c) == seq(64, _ => 0x5c);
  }

  lemma ZeroIsNeutral(b: byte)
    ensures 0 ^ b == b
  {
  }

  /** A key of up to a block counts with any zeros that fill the block, and a longer one as its digest. */
  lemma KeysThatCountTheSame(key: seq<byte>, text: seq<byte>)
    ensures |key| <= BLOCK_SIZE ==> Hmac(key + Zeros(BLOCK_SIZE - |key|), text) == Hmac(key, text)
    ensures |key| > BLOCK_SIZE ==> Hmac(Digest(key), text) == Hmac(key, text)
  {
    hide Digest, Masked;
    if |key| <= BLOCK_SIZE {
      assert key + Zeros(BLOCK_SIZE - |key|) + Zeros(0) == key + Zeros(BLOCK_SIZE - |key|);
    }
  }

  /** The first two blocks of an expansion. */
  lemma ExpandTwoBlocks(prk: seq<byte>, info: seq<byte>)
    ensures var first := Hmac(prk, info + [1]);
            Expand(prk, info, 64) == first + Hmac(prk, first + info + [2])
  {
    hide Hmac;
    var first := Hmac(prk, info + [1]);
    assert T(prk, info, 1) == first by { assert [] + info + [1] == info + [1]; }
    assert T(prk, info, 2) == Hmac(prk, first + info + [2]);
    assert Blocks(prk, info, 1) == first by { assert Blocks(prk, info, 0) == []; }
    var both := Blocks(prk, info, 2);
    assert both == first + T(prk, info, 2) && BlocksFor(64) == 2 && both[..64] == both;
  }

  // ---------------------------------------------------------------------------------------------
  // HMAC

  /** A running HMAC: the session has hashed the inner block and the text so far, and the outer block is kept. */
  ghost predicate Authenticating(h: Hasher, key: seq<byte>, text: seq<byte>)
    reads h, h.state, h.buf, h.opad
  {
    && h.Valid() && h.Exact()
    && h.message == Masked(BlockKey(key), 0x36) + text
    && h.opad[..] == Masked(BlockKey(key), 0x5c)
  }

  /** The two loops that lay the key over the inner and the outer padding. */
  method MaskKey(key: seq<byte>, opad: array<byte>) returns (ipad: seq<byte>)
    requires |key| <= BLOCK_SIZE == opad.Length
    modifies opad
    ensures ipad == Masked(key + Zeros(BLOCK_SIZE - |key|), 0x36)
    ensures opad[..] == Masked(key + Zeros(BLOCK_SIZE - |key|), 0x5c)
  {
    var pad := new byte[BLOCK_SIZE](_ => 0);
    ghost var k := key + Zeros(BLOCK_SIZE - |key|);
    var i := 0;
    while i < |key|
      invariant 0 <= i <= |key|
      invariant forall j :: 0 <= j < i ==> pad[j] == k[j] ^ 0x36 && opad[j] == k[j] ^ 0x5c
    {
      pad[i], opad[i] := key[i] ^ 0x36, key[i] ^ 0x5c;
      i := i + 1;
    }
    while i < BLOCK_SIZE
      invariant |key| <= i <= BLOCK_SIZE
      invariant forall j :: 0 <= j < i ==> pad[j] == k[j] ^ 0x36 && opad[j] == k[j] ^ 0x5c
    {
      pad[i], opad[i] := 0x36, 0x5c;
      i := i + 1;
    }
    ipad := pad[..];
  }

  /** `sha_256_hmac_init` */
  method HmacInit(h: Hasher, key: seq<byte>)
    requires h.Shape() && |key| < h.sizeMod && Countable(key, h.sizeMod)
    modifies h, h.state, h.buf, h.opad
    ensures Authenticating(h, key, [])
  {
    hide HasHashed, BitsOf, Digest, Masked, Zeros;
    var k := key;
    if |key| > BLOCK_SIZE {
      k := h.Hash(key);
    }
    var ipad := MaskKey(k, h.opad);
    h.Init();
    h.Update(ipad);
    assert h.message == ipad + [];
  }

  /** `sha_256_hmac_update` */
  method HmacUpdate(h: Hasher, data: seq<byte>, ghost key: seq<byte>, ghost text: seq<byte>)
    requires Authenticating(h, key, text) && |data| < h.sizeMod && Countable(data, h.sizeMod)
    modifies h, h.state, h.buf
    ensures Authenticating(h, key, text + data)
  {
    hide HasHashed, BitsOf, Masked, BlockKey;
    h.Update(data);
    assert Masked(BlockKey(key), 0x36) + (text + data) == Masked(BlockKey(key), 0x36) + text + data;
  }

  /** `sha_256_hmac_finish` */
  method HmacFinish(h: Hasher, ghost key: seq<byte>, ghost text: seq<byte>) returns (mac: seq<byte>)
    requires Authenticating(h, key, text)
    modifies h, h.state, h.buf, h.opad
    ensures mac == Hmac(key, text)
    ensures h.Shape() && h.opad[..] == Zeros(BLOCK_SIZE)
  {
    hide HasHashed, BitsOf, Masked, BlockKey, Digest;
    mac := h.Finalize();
    mac := OuterDigest(h, mac);
  }

  method OuterDigest(h: Hasher, inner: seq<byte>) returns (mac: seq<byte>)
    requires h.Shape() && |inner| == DIGEST_LENGTH
    modifies h, h.state, h.buf, h.opad
    ensures mac == Digest(old(h.opad[..]) + inner)
    ensures h.Shape() && h.opad[..] == Zeros(BLOCK_SIZE)
  {
    hide HasHashed, BitsOf, Digest, Zeros;
    mac := DigestOfTwo(h, h.opad[..], inner);
    Wipe(h.opad);
  }

  method DigestOfTwo(h: Hasher, outer: seq<byte>, inner: seq<byte>) returns (mac: seq<byte>)
    requires h.Shape() && |inner| <= BLOCK_SIZE && |outer| <= BLOCK_SIZE
    modifies h, h.state, h.buf
    ensures h.Shape() && mac == Digest(outer + inner)
  {
    hide HasHashed, BitsOf, Digest, Zeros;
    h.Init();
    h.Update(outer);
    assert h.message == outer;
    h.Update(inner);
    assert h.message == outer + inner;
    mac := h.Finalize();
  }

  /** `sha_256_hmac` */
  method HmacAtOnce(h: Hasher, key: seq<byte>, data: seq<byte>) returns (mac: seq<byte>)
    requires h.Shape()
    requires |key| < h.sizeMod && Countable(key, h.sizeMod) && |data| < h.sizeMod && Countable(data, h.sizeMod)
    modifies h, h.state, h.buf, h.opad
    ensures mac == Hmac(key, data)
    ensures h.Shape() && h.opad[..] == Zeros(BLOCK_SIZE)
  {
    hide HasHashed, BitsOf, Masked, BlockKey, Digest, Hmac, Authenticating;
    HmacInit(h, key);
    HmacUpdate(h, data, key, []);
    assert [] + data == data;
    mac := HmacFinish(h, key, data);
  }

  /** The code of a text that arrives in pieces is the code of the whole text. */
  method HmacOfPieces(key: seq<byte>, pieces: seq<seq<byte>>, sizeMod: nat) returns (mac: seq<byte>)
    requires sizeMod == TWO_TO_THE_32 || sizeMod == TWO_TO_THE_64
    requires |key| < sizeMod && Countable(key, sizeMod) && AllSized(pieces, sizeMod) && AllCountable(pieces, sizeMod)
    ensures mac == Hmac(key, Concat(pieces))
  {
    hide HasHashed, BitsOf, Masked, BlockKey, Digest, Hmac, Countable;
    var h := new Hasher(sizeMod);
    HmacInit(h, key);
    assert pieces[..0] == [];
    for n := 0 to |pieces|
      invariant h.sizeMod == sizeMod && fresh(h) && fresh(h.state) && fresh(h.buf) && fresh(h.opad)
      invariant Authenticating(h, key, Concat(pieces[..n]))
    {
      HmacUpdate(h, pieces[n], key, Concat(pieces[..n]));
      ConcatOneMore(pieces, n);
    }
    assert pieces[..|pieces|] == pieces;
    mac := HmacFinish(h, key, Concat(pieces));
  }

  // ---------------------------------------------------------------------------------------------
  // HKDF

  /** `sha_256_hkdf_extract` */
  method HkdfExtract(h: Hasher, salt: seq<byte>, ikm: seq<byte>) returns (prk: seq<byte>)
    requires h.Shape()
    requires |salt| < h.sizeMod && Countable(salt, h.sizeMod) && |ikm| < h.sizeMod && Countable(ikm, h.sizeMod)
    modifies h, h.state, h.buf, h.opad
    ensures prk == Hmac(salt, ikm)
    ensures h.Shape()
  {
    hide Hmac, Hasher.Shape;
    prk := HmacAtOnce(h, salt, ikm);
  }

  /** A salt that is left out counts as a digest's length of zeros. */
  lemma NoSaltIsZeroSalt(ikm: seq<byte>)
    ensures Hmac([], ikm) == Hmac(Zeros(DIGEST_LENGTH), ikm)
  {
    hide Digest, Masked;
    assert BlockKey([]) == BlockKey(Zeros(DIGEST_LENGTH));
  }

  /** One round of the expansion's loop. */
  method ExpandRound(h: Hasher, prk: seq<byte>, info: seq<byte>, t: seq<byte>, i: nat) returns (next: seq<byte>)
    requires h.Shape() && 0 < i < 256 && t == T(prk, info, i - 1)
    requires |prk| < h.sizeMod && Countable(prk, h.sizeMod) && |info| < h.sizeMod && Countable(info, h.sizeMod)
    modifies h, h.state, h.buf, h.opad
    ensures h.Shape() && next == T(prk, info, i)
  {
    hide HasHashed, BitsOf, Masked, BlockKey, Digest, Hmac, Authenticating;
    HmacInit(h, prk);
    assert [] + t == t;
    if i != 1 {
      HmacUpdate(h, t, prk, []);
    }
    HmacUpdate(h, info, prk, t);
    HmacUpdate(h, [i as byte], prk, t + info);
    next := HmacFinish(h, prk, t + info + [i as byte]);
  }

  /** The output buffer after `rounds` rounds: the blocks so far, and what it held behind them. */
  ghost predicate Expanded(okm: seq<byte>, was: seq<byte>, prk: seq<byte>, info: seq<byte>, rounds: nat, okmLen: nat)
    requires okmLen <= |was| && rounds < 256
  {
    var shown := Min(DIGEST_LENGTH * rounds, okmLen);
    okm == Blocks(prk, info, rounds)[..shown] + was[shown..]
  }

  lemma StartExpanded(okm: seq<byte>, prk: seq<byte>, info: seq<byte>, okmLen: nat)
    requires okmLen <= |okm|
    ensures Expanded(okm, okm, prk, info, 0, okmLen)
  {
  }

  lemma MoreBlocks(okm: seq<byte>, was: seq<byte>, prk: seq<byte>, info: seq<byte>, i: nat, okmLen: nat)
    requires 0 < i < 256 && DIGEST_LENGTH * (i - 1) < okmLen <= |was|
    requires Expanded(okm, was, prk, info, i - 1, okmLen)
    ensures var at, count := DIGEST_LENGTH * (i - 1), Min(DIGEST_LENGTH, okmLen - DIGEST_LENGTH * (i - 1));
            && |okm| == |was|
            && Expanded(okm[..at] + T(prk, info, i)[..count] + okm[at + count..], was, prk, info, i, okmLen)
  {
    hide T, Blocks;
    var at, count, t := DIGEST_LENGTH * (i - 1), Min(DIGEST_LENGTH, okmLen - DIGEST_LENGTH * (i - 1)), T(prk, info, i);
    var before, after := Blocks(prk, info, i - 1), Blocks(prk, info, i);
    BlocksOneMore(prk, info, i);
    assert before[..at] == before && okm[..at] == before && okm[at + count..] == was[at + count..];
    assert after[..at + count] == before + t[..count];
  }

  lemma BlocksOneMore(prk: seq<byte>, info: seq<byte>, i: nat)
    requires 0 < i < 256
    ensures Blocks(prk, info, i) == Blocks(prk, info, i - 1) + T(prk, info, i)
  {
    hide T;
  }

  method CopyTo(okm: array<byte>, at: nat, data: seq<byte>)
    requires at + |data| <= okm.Length
    modifies okm
    ensures okm[..] == old(okm[..at]) + data + old(okm[at + |data|..])
  {
    forall k | 0 <= k < |data| { okm[at + k] := data[k]; }
  }

  /** `sha_256_hkdf_expand`; `fastMod` is the range of a `uint_fast16_t`. */
  method HkdfExpand(h: Hasher, prk: seq<byte>, info: seq<byte>, okm: array<byte>, okmLen: nat, fastMod: nat)
    requires h.Shape() && okm != h.buf && okm != h.opad
    requires |prk| < h.sizeMod && Countable(prk, h.sizeMod) && |info| < h.sizeMod && Countable(info, h.sizeMod)
    requires okmLen <= okm.Length && okmLen < fastMod && fastMod >= 0x1_0000
    requires okmLen <= 254 * DIGEST_LENGTH
    modifies h, h.state, h.buf, h.opad, okm
    ensures h.Shape()
    ensures okm[..] == Expand(prk, info, okmLen) + old(okm[okmLen..])
  {
    hide T, Countable, Blocks, Expanded, Expand, BlocksFor;
    StartExpanded(okm[..], prk, info, okmLen);
    var left := Min(okmLen, 255 * DIGEST_LENGTH);
    var n := BlocksFor(left);
    var i, t := 1, T(prk, info, 0);
    BlocksNeeded(okmLen, 254);
    while i <= n
      invariant 1 <= i <= n + 1 && h.Shape()
      invariant i <= n ==> left == okmLen - DIGEST_LENGTH * (i - 1)
      invariant t == T(prk, info, i - 1)
      invariant Expanded(okm[..], old(okm[..]), prk, info, i - 1, okmLen)
    {
      BlocksNeeded(okmLen, i - 1);
      BlocksNeeded(okmLen, i);
      t := ExpandRound(h, prk, info, t, i);
      MoreBlocks(okm[..], old(okm[..]), prk, info, i, okmLen);
      CopyTo(okm, (i - 1) * DIGEST_LENGTH, t[..Min(DIGEST_LENGTH, left)]);
      left := if left >= DIGEST_LENGTH then left - DIGEST_LENGTH else left + fastMod - DIGEST_LENGTH;
      i := (i + 1) % 256;
    }
    ExpansionDone(okm[..], old(okm[..]), prk, info, n, okmLen);
  }

  lemma ExpansionDone(okm: seq<byte>, was: seq<byte>, prk: seq<byte>, info: seq<byte>, n: nat, okmLen: nat)
    requires n == BlocksFor(okmLen) < 256 && okmLen <= |was| && okmLen <= 255 * DIGEST_LENGTH
    requires Expanded(okm, was, prk, info, n, okmLen)
    ensures okm == Expand(prk, info, okmLen) + was[okmLen..]
  {
    hide Blocks;
  }

  lemma BlocksNeeded(length: nat, k: nat)
    ensures BlocksFor(length) <= k <==> length <= DIGEST_LENGTH * k
  {
  }

  /** The loop counter after `k` rounds; it is a `uint8_t`. */
  function CounterAfter(k: nat): nat {
    (1 + k) % 256
  }

  /** `i <= n` fails at some point exactly when `n` is below 255: the largest output that section 2.3 of
      RFC 5869 permits, 255 blocks, is one block too long for the loop. */
  lemma ExpansionEnds(okmLen: nat)
    ensures (exists k :: CounterAfter(k) > BlocksFor(Min(okmLen, 255 * DIGEST_LENGTH))) <==>
      okmLen <= 254 * DIGEST_LENGTH
  {
    var n := BlocksFor(Min(okmLen, 255 * DIGEST_LENGTH));
    if n < 255 {
      assert CounterAfter(n) > n;
    }
  }

  /** `sha_256_hkdf` */
  method Hkdf(h: Hasher, salt: seq<byte>, ikm: seq<byte>, info: seq<byte>, okm: array<byte>, okmLen: nat, fastMod: nat)
    requires h.Shape() && okm != h.buf && okm != h.opad
    requires |salt| < h.sizeMod && Countable(salt, h.sizeMod) && |ikm| < h.sizeMod && Countable(ikm, h.sizeMod)
    requires |info| < h.sizeMod && Countable(info, h.sizeMod)
    requires okmLen <= okm.Length && okmLen < fastMod && fastMod >= 0x1_0000
    requires okmLen <= 254 * DIGEST_LENGTH
    modifies h, h.state, h.buf, h.opad, okm
    ensures okm[..] == Expand(Hmac(salt, ikm), info, okmLen) + old(okm[okmLen..])
  {
    hide Expand, Hmac, Zeros;
    var prk := HkdfExtract(h, salt, ikm);
    HkdfExpand(h, prk, info, okm, okmLen, fastMod);
  }
}
