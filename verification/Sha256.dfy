/** SHA-256 over a message that arrives in pieces: os/lib/sha-256.c against sections 5.1.1, 5.3.3 and
    6.2 of FIPS 180-4. */
module Sha256 {
  import opened Sha256Block
  import opened Bits
  import opened ByteStrings

  const DIGEST_LENGTH := 32
  const TWO_TO_THE_64 := 0x1_0000_0000_0000_0000
  const TWO_TO_THE_32 := 0x1_0000_0000

  // ---------------------------------------------------------------------------------------------
  // The standard

  function InitialState(): (h: seq<Word>)
    ensures |h| == 8
  {
    [0x6A09E667, 0xBB67AE85, 0x3C6EF372, 0xA54FF53A, 0x510E527F, 0x9B05688C, 0x1F83D9AB, 0x5BE0CD19]
  }

  /** The hash value after a whole number of blocks. */
  function HashBlocks(h: seq<Word>, bytes: seq<byte>): (r: seq<Word>)
    requires |h| == 8 && |bytes| % BLOCK_SIZE == 0
    ensures |r| == 8
    decreases |bytes|
  {
    if bytes == [] then h else HashBlocks(Compress(h, bytes[..BLOCK_SIZE]), bytes[BLOCK_SIZE..])
  }

  /** The message, a one bit, zero bits up to 8 bytes before the end of a block, and a bit count. */
  function Padded(message: seq<byte>, bitCount: nat): (r: seq<byte>)
    ensures |r| % BLOCK_SIZE == 0
  {
    message + [0x80] + Zeros((55 - |message|) % BLOCK_SIZE) + BigEndian(bitCount, 8)
  }

  /** `be32enc` */
  function WordBytes(u: Word): (r: seq<byte>)
    ensures |r| == 4
  {
    [((u >> 24) & 0xff) as byte, ((u >> 16) & 0xff) as byte, ((u >> 8) & 0xff) as byte, (u & 0xff) as byte]
  }

  function BytesOf(words: seq<Word>): (r: seq<byte>)
    ensures |r| == 4 * |words|
  {
    if words == [] then [] else WordBytes(words[0]) + BytesOf(words[1..])
  }

  lemma {:induction false} BytesOfOneMore(words: seq<Word>, u: Word)
    ensures BytesOf(words + [u]) == BytesOf(words) + WordBytes(u)
  {
    hide WordBytes;
    if words != [] {
      assert (words + [u])[1..] == words[1..] + [u];
      BytesOfOneMore(words[1..], u);
    }
  }

  /** The digest with some bit count in the padding. */
  function DigestWith(message: seq<byte>, bitCount: nat): (r: seq<byte>)
    ensures |r| == DIGEST_LENGTH
  {
    BytesOf(HashBlocks(InitialState(), Padded(message, bitCount)))
  }

  /** The digest of a message of fewer than 2^64 bits. */
  function Digest(message: seq<byte>): (r: seq<byte>)
    ensures |r| == DIGEST_LENGTH
  {
    DigestWith(message, 8 * |message|)
  }

  // ---------------------------------------------------------------------------------------------
  // Blocks

  lemma {:induction false} HashAppend(h: seq<Word>, a: seq<byte>, b: seq<byte>)
    requires |h| == 8 && |a| % BLOCK_SIZE == 0 && |b| % BLOCK_SIZE == 0
    ensures HashBlocks(h, a + b) == HashBlocks(HashBlocks(h, a), b)
    decreases |a|
  {
    hide Compress;
    if a == [] {
      assert a + b == b;
    } else {
      assert (a + b)[..BLOCK_SIZE] == a[..BLOCK_SIZE] && (a + b)[BLOCK_SIZE..] == a[BLOCK_SIZE..] + b;
      HashAppend(Compress(h, a[..BLOCK_SIZE]), a[BLOCK_SIZE..], b);
    }
  }

  lemma HashOneMore(h: seq<Word>, a: seq<byte>, block: seq<byte>)
    requires |h| == 8 && |a| % BLOCK_SIZE == 0 && |block| == BLOCK_SIZE
    ensures HashBlocks(h, a + block) == Compress(HashBlocks(h, a), block)
  {
    hide Compress;
    HashAppend(h, a, block);
    assert block[..BLOCK_SIZE] == block && block[BLOCK_SIZE..] == [];
  }

  /** The part of a message that fills whole blocks. */
  function Whole(message: seq<byte>): (r: seq<byte>)
    ensures |r| % BLOCK_SIZE == 0 && |r| <= |message| < |r| + BLOCK_SIZE
  {
    message[..|message| - |message| % BLOCK_SIZE]
  }

  function Tail(message: seq<byte>): (r: seq<byte>)
    ensures |r| < BLOCK_SIZE && Whole(message) + r == message
  {
    message[|message| - |message| % BLOCK_SIZE..]
  }

  /** A split into whole blocks and less than a block is the only one. */
  lemma SplitIsUnique(message: seq<byte>, a: seq<byte>, b: seq<byte>)
    requires message == a + b && |a| % BLOCK_SIZE == 0 && |b| < BLOCK_SIZE
    ensures Whole(message) == a && Tail(message) == b
  {
  }

  // ---------------------------------------------------------------------------------------------
  // The session

  /** `sha_256_checkpoint_t` */
  datatype Checkpoint = Checkpoint(bitCount: nat, state: seq<Word>, buf: seq<byte>, bufLen: nat, opad: seq<byte>) {
    predicate Shape() {
      |state| == 8 && |buf| == |opad| == BLOCK_SIZE && bitCount < TWO_TO_THE_64
    }

    /** It resumes a session that has taken in this message. */
    ghost predicate Stands(message: seq<byte>) {
      Shape() && HasHashed(state, buf, bufLen, message)
    }
  }

  /** The hash value of whole blocks. */
  ghost predicate After(state: seq<Word>, blocks: seq<byte>) {
    |state| == 8 && |blocks| % BLOCK_SIZE == 0 && state == HashBlocks(InitialState(), blocks)
  }

  lemma AfterOneMore(state: seq<Word>, blocks: seq<byte>, block: seq<byte>)
    requires After(state, blocks) && |block| == BLOCK_SIZE
    ensures |state| == 8 && After(Compress(state, block), blocks + block)
  {
    hide Compress, HashBlocks;
    HashOneMore(InitialState(), blocks, block);
  }

  /** The state of a session that has taken in a message, but for the bit count. */
  ghost predicate HasHashed(state: seq<Word>, buf: seq<byte>, bufLen: nat, message: seq<byte>) {
    && |buf| == BLOCK_SIZE && bufLen < BLOCK_SIZE
    && After(state, Whole(message))
    && buf[..bufLen] == Tail(message)
  }

  lemma PartsHashed(state: seq<Word>, buf: seq<byte>, bufLen: nat, message: seq<byte>)
    requires HasHashed(state, buf, bufLen, message)
    ensures |buf| == BLOCK_SIZE && bufLen < BLOCK_SIZE
    ensures After(state, Whole(message)) && buf[..bufLen] == Tail(message)
  {
  }

  lemma NowHashed(state: seq<Word>, buf: seq<byte>, bufLen: nat, message: seq<byte>, whole: seq<byte>, tail: seq<byte>)
    requires |buf| == BLOCK_SIZE && bufLen < BLOCK_SIZE
    requires message == whole + tail && After(state, whole) && buf[..bufLen] == tail
    ensures HasHashed(state, buf, bufLen, message)
  {
    hide HashBlocks, Whole, Tail;
    SplitIsUnique(message, whole, tail);
  }

  /** A session that has taken in nothing. */
  lemma NothingHashed(state: seq<Word>, buf: seq<byte>)
    requires state == InitialState() && |buf| == BLOCK_SIZE
    ensures HasHashed(state, buf, 0, []) && BitsOf(0) == 0
  {
    hide InitialState, Compress;
    assert Whole([]) == [] && Tail([]) == [];
  }

  /** `memset` of a block to zero. */
  method Wipe(a: array<byte>)
    requires a.Length == BLOCK_SIZE
    modifies a
    ensures a[..] == Zeros(BLOCK_SIZE)
  {
    forall i | 0 <= i < BLOCK_SIZE { a[i] := 0; }
  }

  method LoadWords(a: array<Word>, words: seq<Word>)
    requires a.Length == |words|
    modifies a
    ensures a[..] == words
  {
    forall i | 0 <= i < |words| { a[i] := words[i]; }
  }

  class Hasher {
    const sizeMod: nat         // size_t counts modulo this: 2^32 or 2^64
    const state: array<Word>
    const buf: array<byte>
    const opad: array<byte>
    var bitCount: nat          // uint64_t
    var bufLen: nat
    ghost var message: seq<byte>

    ghost predicate Shape()
      reads this
    {
      && state.Length == 8 && buf.Length == opad.Length == BLOCK_SIZE && buf != opad
      && (sizeMod == TWO_TO_THE_32 || sizeMod == TWO_TO_THE_64)
      && bitCount < TWO_TO_THE_64
    }

    ghost predicate Valid()
      reads this, state, buf
    {
      Shape() && HasHashed(state[..], buf[..], bufLen, message)
    }

    /** The bit count is the one that the standard wants. */
    ghost predicate Exact()
      reads this
    {
      bitCount == BitsOf(|message|)
    }

    constructor (sizeMod: nat)
      requires sizeMod == TWO_TO_THE_32 || sizeMod == TWO_TO_THE_64
      ensures Shape() && this.sizeMod == sizeMod && fresh(state) && fresh(buf) && fresh(opad)
    {
      this.sizeMod := sizeMod;
      state := new Word[8](_ => 0);
      buf := new byte[BLOCK_SIZE](_ => 0);
      opad := new byte[BLOCK_SIZE](_ => 0);
      bitCount, bufLen := 0, 0;
    }

    /** `init` */
    method Init()
      requires Shape()
      modifies this, state
      ensures Valid() && Exact() && message == [] && bitCount == 0
    {
      hide HasHashed, InitialState, BitsOf;
      bitCount, bufLen := 0, 0;
      LoadWords(state, InitialState());
      message := [];
      NothingHashed(state[..], buf[..]);
    }

    /** `memcpy` into the block buffer. */
    method CopyIn(at: nat, data: seq<byte>)
      requires buf.Length == BLOCK_SIZE && at + |data| <= BLOCK_SIZE
      modifies buf
      ensures buf[..] == old(buf[..at]) + data + old(buf[at + |data|..])
    {
      forall i | 0 <= i < |data| { buf[at + i] := data[i]; }
    }

    /** A block is mixed in behind the whole blocks so far. */
    method Mix(block: seq<byte>, ghost before: seq<byte>)
      requires |block| == BLOCK_SIZE && After(state[..], before)
      modifies state
      ensures After(state[..], before + block)
    {
      hide Compress, HashBlocks;
      AfterOneMore(state[..], before, block);
      Transform(state, block);
    }

    /** The loop of `update` over complete blocks. */
    method MixAll(data: seq<byte>, ghost before: seq<byte>) returns (rest: seq<byte>, ghost done: seq<byte>)
      requires After(state[..], before)
      modifies state
      ensures done + rest == before + data && |rest| < BLOCK_SIZE && After(state[..], done)
    {
      hide Compress, After;
      rest, done := data, before;
      while |rest| >= BLOCK_SIZE
        invariant done + rest == before + data && After(state[..], done)
        decreases |rest|
      {
        Mix(rest[..BLOCK_SIZE], done);
        done := done + rest[..BLOCK_SIZE];
        rest := rest[BLOCK_SIZE..];
      }
    }

    /** `update` */
    method Update(data: seq<byte>)
      requires Valid() && |data| < sizeMod
      modifies this`bitCount, this`bufLen, this`message, state, buf
      ensures Valid() && message == old(message) + data
      ensures bitCount == Counted(old(bitCount), |data|, sizeMod)
      ensures old(Exact()) ==> (Exact() <==> Countable(data, sizeMod))
    {
      hide HasHashed, Counted, BitsOf, Countable;
      CountBits(data, |message|, sizeMod);
      bitCount := Counted(bitCount, |data|, sizeMod);
      TakeIn(data);
    }

    /** Its part after the bit count. */
    method TakeIn(data: seq<byte>)
      requires Valid()
      modifies this`bufLen, this`message, state, buf
      ensures Valid() && message == old(message) + data
    {
      hide HasHashed, After, Whole, Tail;
      PartsHashed(state[..], buf[..], bufLen, message);
      ghost var whole, tail := Whole(message), Tail(message);
      message := message + data;
      var room := BLOCK_SIZE - bufLen;
      if |data| < room {
        CopyIn(bufLen, data);
        bufLen := bufLen + |data|;
        NowHashed(state[..], buf[..], bufLen, message, whole, tail + data);
        return;
      }
      ghost var done := FinishBlock(data, whole, tail);
      NowHashed(state[..], buf[..], bufLen, message, done, buf[..bufLen]);
    }

    /** From the finishing of the current block on. */
    method FinishBlock(data: seq<byte>, ghost whole: seq<byte>, ghost tail: seq<byte>) returns (ghost done: seq<byte>)
      requires buf.Length == BLOCK_SIZE && bufLen < BLOCK_SIZE
      requires After(state[..], whole) && buf[..bufLen] == tail
      requires |data| >= BLOCK_SIZE - bufLen
      modifies this`bufLen, state, buf
      ensures bufLen < BLOCK_SIZE && After(state[..], done)
      ensures done + buf[..bufLen] == whole + tail + data
    {
      hide After;
      var room := BLOCK_SIZE - bufLen;
      CopyIn(bufLen, data[..room]);
      assert buf[..] == tail + data[..room];
      Mix(buf[..], whole);
      var rest;
      rest, done := MixAll(data[room..], whole + (tail + data[..room]));
      assert whole + (tail + data[..room]) + data[room..] == whole + tail + data;
      CopyIn(0, rest);
      bufLen := |rest|;
    }

    /** `sha_256_pad` */
    method Pad()
      requires Valid()
      modifies state, buf
      ensures state[..] == HashBlocks(InitialState(), Padded(message, bitCount))
    {
      hide Compress, HashBlocks, Padded, HasHashed, BigEndian;
      ghost var mixed := PadFront();
      ghost var front := buf[..56];
      BitCountInHalves(bitCount);
      CopyIn(56, BigEndian(bitCount / TWO_TO_THE_32, 4) + BigEndian(bitCount % TWO_TO_THE_32, 4));
      assert buf[..] == front + BigEndian(bitCount, 8);
      Mix(buf[..], mixed);
    }

    /** Its part before the bit count: a second block is begun if the first has no room for that. */
    method PadFront() returns (ghost mixed: seq<byte>)
      requires Valid()
      modifies state, buf
      ensures After(state[..], mixed)
      ensures Padded(message, bitCount) == mixed + (buf[..56] + BigEndian(bitCount, 8))
    {
      hide HasHashed, After, Padded, Whole, Tail, BigEndian;
      PartsHashed(state[..], buf[..], bufLen, message);
      ghost var whole, tail := Whole(message), Tail(message);
      PaddedInBlocks(message, bitCount);
      mixed := whole;
      if bufLen < 56 {
        CopyIn(bufLen, PAD()[..56 - bufLen]);
        assert buf[..56] == tail + PAD()[..56 - bufLen];
      } else {
        CopyIn(bufLen, PAD()[..BLOCK_SIZE - bufLen]);
        assert buf[..] == tail + PAD()[..BLOCK_SIZE - bufLen];
        Mix(buf[..], whole);
        mixed := whole + (tail + PAD()[..BLOCK_SIZE - bufLen]);
        CopyIn(0, Zeros(56));
        assert buf[..56] == Zeros(56);
      }
    }

    /** `be32enc_vect` */
    method ExportState() returns (bytes: seq<byte>)
      requires state.Length == 8
      ensures bytes == BytesOf(state[..])
    {
      bytes := [];
      for i := 0 to state.Length
        invariant bytes == BytesOf(state[..i])
      {
        bytes := bytes + WordBytes(state[i]);
        assert state[..i + 1] == state[..i] + [state[i]];
        BytesOfOneMore(state[..i], state[i]);
      }
      assert state[..] == state[..state.Length];
    }

    /** `finalize` */
    method Finalize() returns (digest: seq<byte>)
      requires Valid()
      modifies state, buf
      ensures digest == DigestWith(message, bitCount)
      ensures Exact() ==> digest == Digest(message)
      ensures state[..] == seq(8, _ => 0) && buf[..] == Zeros(BLOCK_SIZE)
    {
      hide Compress, HashBlocks, BytesOf, Padded;
      Pad();
      digest := ExportState();
      PaddingWraps(message, bitCount);
      Wipe(buf);
      LoadWords(state, seq(8, _ => 0));
    }

    /** `sha_256_hash` */
    method Hash(data: seq<byte>) returns (digest: seq<byte>)
      requires Shape() && |data| < sizeMod
      modifies this, state, buf
      ensures Shape()
      ensures Countable(data, sizeMod) ==> digest == Digest(data)
    {
      hide Compress, HashBlocks, BytesOf, Padded, DigestWith, Digest;
      Init();
      Update(data);
      assert message == data;
      digest := Finalize();
    }

    /** What a checkpoint of this session holds. */
    ghost function Snapshot(): Checkpoint
      reads this, state, buf, opad
    {
      Checkpoint(bitCount, state[..], buf[..], bufLen, opad[..])
    }

    /** `create_checkpoint` */
    method CreateCheckpoint() returns (cp: Checkpoint)
      requires Shape()
      ensures cp == Snapshot() && cp.Shape()
      ensures Valid() ==> cp.Stands(message)
    {
      cp := Checkpoint(bitCount, state[..], buf[..], bufLen, opad[..]);
    }

    /** `restore_checkpoint`: of a checkpoint that was taken of this message. */
    method RestoreCheckpoint(cp: Checkpoint, ghost saved: seq<byte>)
      requires Shape() && cp.Shape()
      modifies this, state, buf, opad
      ensures Shape() && Snapshot() == cp && message == saved
      ensures cp.Stands(saved) ==> Valid()
    {
      bitCount, bufLen, message := cp.bitCount, cp.bufLen, saved;
      LoadWords(state, cp.state);
      forall i | 0 <= i < BLOCK_SIZE { buf[i] := cp.buf[i]; }
      forall i | 0 <= i < BLOCK_SIZE { opad[i] := cp.opad[i]; }
      assert state[..] == cp.state && buf[..] == cp.buf && opad[..] == cp.opad;
    }

    /** Any number of calls of `update`. */
    method UpdateAll(pieces: seq<seq<byte>>)
      requires Valid() && AllSized(pieces, sizeMod)
      modifies this`bitCount, this`bufLen, this`message, state, buf
      ensures Valid() && message == old(message) + Concat(pieces)
      ensures bitCount == CountedAll(old(bitCount), pieces, sizeMod)
      ensures old(Exact()) && AllCountable(pieces, sizeMod) ==> Exact()
    {
      hide HasHashed, BitsOf, Countable, Counted;
      assert pieces[..0] == [];
      for n := 0 to |pieces|
        invariant Valid() && message == old(message) + Concat(pieces[..n])
        invariant bitCount == CountedAll(old(bitCount), pieces[..n], sizeMod)
        invariant old(Exact()) && AllCountable(pieces, sizeMod) ==> Exact()
      {
        Update(pieces[n]);
        ConcatOneMore(pieces, n);
        CountOneMore(old(bitCount), pieces, n, sizeMod);
      }
      assert pieces[..|pieces|] == pieces;
    }

    /** A whole session. */
    method HashPieces(pieces: seq<seq<byte>>) returns (digest: seq<byte>)
      requires Shape() && AllSized(pieces, sizeMod)
      modifies this, state, buf
      ensures Shape() && digest == DigestWith(Concat(pieces), CountedAll(0, pieces, sizeMod))
      ensures AllCountable(pieces, sizeMod) ==> digest == Digest(Concat(pieces))
    {
      hide HasHashed, BitsOf, Digest, DigestWith, AllCountable, AllSized, CountedAll;
      Init();
      UpdateAll(pieces);
      assert message == Concat(pieces);
      digest := Finalize();
    }
  }

  // ---------------------------------------------------------------------------------------------
  // Every split of a message, and a break in the middle

  function Concat(pieces: seq<seq<byte>>): (r: seq<byte>) {
    if pieces == [] then [] else Concat(pieces[..|pieces| - 1]) + pieces[|pieces| - 1]
  }

  lemma ConcatOneMore(pieces: seq<seq<byte>>, n: nat)
    requires n < |pieces|
    ensures Concat(pieces[..n + 1]) == Concat(pieces[..n]) + pieces[n]
  {
    assert pieces[..n + 1][..n] == pieces[..n];
  }

  /** Every length is a `size_t`. */
  ghost predicate AllSized(pieces: seq<seq<byte>>, sizeMod: nat) {
    forall k :: 0 <= k < |pieces| ==> |pieces[k]| < sizeMod
  }

  ghost predicate AllCountable(pieces: seq<seq<byte>>, sizeMod: nat) {
    forall k :: 0 <= k < |pieces| ==> Countable(pieces[k], sizeMod)
  }

  /** The bit count after a sequence of pieces. */
  function CountedAll(bitCount: nat, pieces: seq<seq<byte>>, sizeMod: nat): nat
    requires sizeMod > 0
  {
    if pieces == [] then bitCount
    else Counted(CountedAll(bitCount, pieces[..|pieces| - 1], sizeMod), |pieces[|pieces| - 1]|, sizeMod)
  }

  lemma CountOneMore(bitCount: nat, pieces: seq<seq<byte>>, n: nat, sizeMod: nat)
    requires n < |pieces| && sizeMod > 0
    ensures CountedAll(bitCount, pieces[..n + 1], sizeMod) ==
            Counted(CountedAll(bitCount, pieces[..n], sizeMod), |pieces[n]|, sizeMod)
  {
    hide Counted;
    assert pieces[..n + 1][..n] == pieces[..n];
  }

  /** The bit count of a message of fewer than 2^61 bytes, which is as long as the standard allows, is right
      if and only if every piece is countable: what one piece loses, no other makes up for. */
  lemma {:induction false} CountIsRight(pieces: seq<seq<byte>>, sizeMod: nat)
    requires sizeMod == TWO_TO_THE_32 || sizeMod == TWO_TO_THE_64
    requires 8 * |Concat(pieces)| < TWO_TO_THE_64
    ensures CountedAll(0, pieces, sizeMod) <= 8 * |Concat(pieces)|
    ensures CountedAll(0, pieces, sizeMod) == BitsOf(|Concat(pieces)|) <==> AllCountable(pieces, sizeMod)
    decreases |pieces|
  {
    if pieces != [] {
      var n := |pieces| - 1;
      CountIsRight(pieces[..n], sizeMod);
      CountPiece(CountedAll(0, pieces[..n], sizeMod), |Concat(pieces[..n])|, pieces[n], sizeMod);
      assert pieces == pieces[..n] + [pieces[n]];
      assert AllCountable(pieces, sizeMod) <==> AllCountable(pieces[..n], sizeMod) && Countable(pieces[n], sizeMod);
    }
  }

  lemma CountPiece(count: nat, before: nat, piece: seq<byte>, sizeMod: nat)
    requires sizeMod == TWO_TO_THE_32 || sizeMod == TWO_TO_THE_64
    requires count <= 8 * before && 8 * (before + |piece|) < TWO_TO_THE_64
    ensures Counted(count, |piece|, sizeMod) <= 8 * (before + |piece|)
    ensures Counted(count, |piece|, sizeMod) == BitsOf(before + |piece|) <==>
            count == BitsOf(before) && Countable(piece, sizeMod)
  {
    var bits, kept := 8 * |piece|, 8 * |piece| % sizeMod;
    DivModParts(bits, sizeMod);
    ModIsUnique(count + kept, TWO_TO_THE_64, 0, count + kept);
    ModIsUnique(8 * before, TWO_TO_THE_64, 0, 8 * before);
    ModIsUnique(8 * (before + |piece|), TWO_TO_THE_64, 0, 8 * (before + |piece|));
    if bits < sizeMod {
      ModIsUnique(bits, sizeMod, 0, bits);
    }
  }

  /** However a message is split, its digest is the standard's, if every piece can be counted. */
  method DigestOfPieces(pieces: seq<seq<byte>>, sizeMod: nat) returns (digest: seq<byte>)
    requires sizeMod == TWO_TO_THE_32 || sizeMod == TWO_TO_THE_64
    requires AllSized(pieces, sizeMod)
    ensures digest == DigestWith(Concat(pieces), CountedAll(0, pieces, sizeMod))
    ensures AllCountable(pieces, sizeMod) ==> digest == Digest(Concat(pieces))
  {
    hide Digest, DigestWith, HasHashed, BitsOf, AllCountable, AllSized, CountedAll;
    var h := new Hasher(sizeMod);
    digest := h.HashPieces(pieces);
  }

  /** A session that is saved, set aside for a whole other session, and restored goes on as if nothing had
      happened. */
  method DigestWithABreak(first: seq<seq<byte>>, other: seq<seq<byte>>, second: seq<seq<byte>>, sizeMod: nat)
    returns (digest: seq<byte>, otherDigest: seq<byte>)
    requires sizeMod == TWO_TO_THE_32 || sizeMod == TWO_TO_THE_64
    requires AllSized(first, sizeMod) && AllSized(other, sizeMod) && AllSized(second, sizeMod)
    ensures digest ==
      DigestWith(Concat(first) + Concat(second), CountedAll(CountedAll(0, first, sizeMod), second, sizeMod))
    ensures AllCountable(first, sizeMod) && AllCountable(second, sizeMod) ==>
              digest == Digest(Concat(first) + Concat(second))
    ensures otherDigest == DigestWith(Concat(other), CountedAll(0, other, sizeMod))
  {
    hide Digest, DigestWith, HasHashed, BitsOf, AllCountable, AllSized, CountedAll;
    var h := new Hasher(sizeMod);
    h.Init();
    h.UpdateAll(first);
    var cp := h.CreateCheckpoint();
    ghost var saved := h.message;
    otherDigest := h.HashPieces(other);
    h.RestoreCheckpoint(cp, saved);
    h.UpdateAll(second);
    assert h.message == Concat(first) + Concat(second);
    digest := h.Finalize();
  }

  // ---------------------------------------------------------------------------------------------
  // Padding

  function PAD(): (r: seq<byte>)
    ensures |r| == BLOCK_SIZE
  {
    [0x80] + Zeros(63)
  }

  /** The padding takes one block or two. */
  lemma PaddedInBlocks(message: seq<byte>, bitCount: nat)
    ensures var tail, n := Tail(message), |Tail(message)|;
            Padded(message, bitCount) ==
            if n < 56 then Whole(message) + (tail + PAD()[..56 - n] + BigEndian(bitCount, 8))
            else Whole(message) + (tail + PAD()[..BLOCK_SIZE - n]) + (Zeros(56) + BigEndian(bitCount, 8))
  {
    hide BigEndian, Whole, Tail;
    var tail, n := Tail(message), |Tail(message)|;
    ZerosNeeded(message);
    if 56 <= n {
      assert Zeros(63 - n) + Zeros(56) == Zeros(119 - n);
    }
  }

  lemma ZerosNeeded(message: seq<byte>)
    ensures var n := |Tail(message)|; (55 - |message|) % BLOCK_SIZE == if n < 56 then 55 - n else 119 - n
  {
  }

  /** `be64enc`: the high half, then the low half. */
  lemma BitCountInHalves(v: nat)
    ensures BigEndian(v, 4) == BigEndian(v % TWO_TO_THE_32, 4)
    ensures BigEndian(v, 8) == BigEndian(v / TWO_TO_THE_32, 4) + BigEndian(v % TWO_TO_THE_32, 4)
  {
    var v1, v2, v3 := v / 256, v / 256 / 256, v / 256 / 256 / 256;
    assert High(v3, 1) == v3 / 256 && Low(v3, 1) == v3 % 256;
    assert High(v2, 2) == v3 / 256 && Low(v2, 2) == 256 * Low(v3, 1) + v2 % 256;
    assert High(v1, 3) == v3 / 256 && Low(v1, 3) == 256 * Low(v2, 2) + v1 % 256;
    assert High(v, 4) == v / TWO_TO_THE_32 && Low(v, 4) == v % TWO_TO_THE_32;
    BigEndianSplits(v, 4, 4);
    BigEndianSplits(v, 0, 4);
  }

  /** What is left of a number without its `n` low bytes, and those bytes. */
  function High(v: nat, n: nat): nat {
    if n == 0 then v else High(v / 256, n - 1)
  }

  function Low(v: nat, n: nat): nat {
    if n == 0 then 0 else 256 * Low(v / 256, n - 1) + v % 256
  }

  lemma {:induction false} BigEndianSplits(v: nat, m: nat, n: nat)
    ensures BigEndian(v, m + n) == BigEndian(High(v, n), m) + BigEndian(Low(v, n), n)
  {
    hide LowByte, Low;
    if n > 0 {
      LowestByte(v, n);
      BigEndianSplits(v / 256, m, n - 1);
      assert BigEndian(Low(v, n), n) == BigEndian(Low(v / 256, n - 1), n - 1) + [LowByte(v)];
    } else {
      assert BigEndian(Low(v, n), 0) == [];
    }
  }

  lemma LowestByte(v: nat, n: nat)
    requires n > 0
    ensures Low(v, n) / 256 == Low(v / 256, n - 1) && LowByte(Low(v, n)) == LowByte(v)
  {
    hide LowByte;
    LowByteOnly(Low(v, n), v);
  }

  lemma LowByteOnly(v: nat, w: nat)
    ensures v % 256 == w % 256 ==> LowByte(v) == LowByte(w)
  {
  }

  lemma LowBytesWrap(v: nat)
    ensures BigEndian(v % TWO_TO_THE_64, 8) == BigEndian(v, 8)
  {
    hide BigEndian;
    HalvesWrap(v);
    BitCountInHalves(v);
    BitCountInHalves(v % TWO_TO_THE_64);
    BitCountInHalves(v / TWO_TO_THE_32);
  }

  lemma HalvesWrap(v: nat)
    ensures v % TWO_TO_THE_64 / TWO_TO_THE_32 == v / TWO_TO_THE_32 % TWO_TO_THE_32
    ensures v % TWO_TO_THE_64 % TWO_TO_THE_32 == v % TWO_TO_THE_32
  {
    var q, hi, lo := v / TWO_TO_THE_64, v / TWO_TO_THE_32 % TWO_TO_THE_32, v % TWO_TO_THE_32;
    assert v == q * TWO_TO_THE_64 + (hi * TWO_TO_THE_32 + lo);
    ModIsUnique(v, TWO_TO_THE_64, q, hi * TWO_TO_THE_32 + lo);
    ModIsUnique(hi * TWO_TO_THE_32 + lo, TWO_TO_THE_32, hi, lo);
  }

  /** Only the bit count modulo 2^64 goes into the padding. */
  lemma PaddingWraps(message: seq<byte>, bitCount: nat)
    ensures bitCount == BitsOf(|message|) ==> Padded(message, bitCount) == Padded(message, 8 * |message|)
  {
    hide BigEndian;
    LowBytesWrap(8 * |message|);
  }

  /** A piece of 2^29 bytes or more is too long to be counted in a 32-bit `size_t`. */
  predicate Countable(data: seq<byte>, sizeMod: nat) {
    sizeMod == TWO_TO_THE_64 || |data| < TWO_TO_THE_32 / 8
  }

  function BitsOf(n: nat): nat {
    8 * n % TWO_TO_THE_64
  }

  /** `bit_count += len << 3`: the shift is done in a `size_t`, the sum in a `uint64_t`. */
  function Counted(bitCount: nat, len: nat, sizeMod: nat): (r: nat)
    requires sizeMod > 0
    ensures r < TWO_TO_THE_64
  {
    (bitCount + 8 * len % sizeMod) % TWO_TO_THE_64
  }

  lemma CountBits(data: seq<byte>, before: nat, sizeMod: nat)
    requires sizeMod == TWO_TO_THE_32 || sizeMod == TWO_TO_THE_64
    requires |data| < sizeMod
    ensures Counted(BitsOf(before), |data|, sizeMod) == BitsOf(before + |data|) <==> Countable(data, sizeMod)
  {
    var bits, lost := 8 * |data| % sizeMod, 8 * |data| / sizeMod;
    DivModParts(8 * |data|, sizeMod);
    assert 8 * before + bits + lost * sizeMod == 8 * (before + |data|);
    ModDrops(8 * before, bits, TWO_TO_THE_64);
    ModDiffers(8 * before + bits, lost * sizeMod, TWO_TO_THE_64);
    LostBits(|data|, lost, sizeMod);
  }

  lemma LostBits(len: nat, lost: nat, sizeMod: nat)
    requires sizeMod == TWO_TO_THE_32 || sizeMod == TWO_TO_THE_64
    requires len < sizeMod && lost == 8 * len / sizeMod
    ensures lost * sizeMod % TWO_TO_THE_64 == 0 <==> sizeMod == TWO_TO_THE_64 || len < TWO_TO_THE_32 / 8
  {
    if sizeMod == TWO_TO_THE_64 {
      ModIsUnique(lost * sizeMod, TWO_TO_THE_64, lost, 0);
    } else {
      ModIsUnique(lost * sizeMod, TWO_TO_THE_64, 0, lost * sizeMod);
    }
  }

  lemma ModDrops(a: nat, b: nat, m: nat)
    requires m > 0
    ensures (a % m + b) % m == (a + b) % m
  {
    var c := a % m + b;
    assert a + b == (a / m + c / m) * m + c % m;
    ModIsUnique(a + b, m, a / m + c / m, c % m);
  }

  /** Adding `d` is seen modulo `m` unless it is a multiple of `m`. */
  lemma ModDiffers(a: nat, d: nat, m: nat)
    requires m > 0
    ensures (a + d) % m == a % m <==> d % m == 0
  {
    var q := (a + d) / m - a / m;
    if (a + d) % m == a % m {
      assert d == q * m + 0;
      ModIsUnique(d, m, q, 0);
    }
    if d % m == 0 {
      assert a + d == (a / m + d / m) * m + a % m;
      ModIsUnique(a + d, m, a / m + d / m, a % m);
    }
  }

  /** The shortest such piece adds nothing at all to the count. */
  lemma LongPieceIsNotCounted()
    ensures Counted(BitsOf(0), TWO_TO_THE_32 / 8, TWO_TO_THE_32) == 0 != BitsOf(TWO_TO_THE_32 / 8)
  {
  }
}
