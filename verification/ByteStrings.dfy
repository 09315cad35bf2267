/** Byte strings. */
module ByteStrings {
  type byte = bv8

  function Zeros(n: nat): (r: seq<byte>)
    ensures |r| == n
  {
    seq(n, _ => 0)
  }

  function LowByte(v: nat): byte { (v % 256) as byte }

  /** By counting up: each byte is one more than the last. */
  lemma {:induction false} ByteReadsBack(v: nat)
    requires v < 256
    ensures (v as byte) as nat == v
  {
    if v > 0 {
      ByteReadsBack(v - 1);
      var b := (v - 1) as byte;
      NextByte(b);
    }
  }

  lemma NextByte(b: byte)
    requires b != 255
    ensures (b + 1) as nat == b as nat + 1
  {
  }

  /** The `n` low bytes of a number, most significant first. */
  function BigEndian(v: nat, n: nat): (r: seq<byte>)
    ensures |r| == n
  {
    if n == 0 then [] else BigEndian(v / 256, n - 1) + [LowByte(v)]
  }

  lemma TwoBytes(v: nat)
    ensures BigEndian(v, 2) == [LowByte(v / 256), LowByte(v)]
  {
    hide LowByte;
    assert BigEndian(v / 256, 1) == BigEndian(v / 256 / 256, 0) + [LowByte(v / 256)];
    assert BigEndian(v, 2) == BigEndian(v / 256, 1) + [LowByte(v)];
  }

  /** The digit of weight 256^k. */
  function Digit(v: nat, k: nat): byte {
    if k == 0 then LowByte(v) else Digit(v / 256, k - 1)
  }

  lemma {:induction false} BigEndianAt(v: nat, n: nat, i: nat)
    requires i < n
    ensures BigEndian(v, n)[i] == Digit(v, n - 1 - i)
  {
    hide LowByte;
    if i < n - 1 {
      BigEndianAt(v / 256, n - 1, i);
    }
  }

  /** Exclusive or, which is also addition in GF(2^8). */
  function Plus(a: byte, b: byte): byte { a ^ b }

  lemma PlusCommutes(a: byte, b: byte)
    ensures Plus(a, b) == Plus(b, a)
  {
  }

  lemma PlusAssociates(a: byte, b: byte, c: byte)
    ensures Plus(Plus(a, b), c) == Plus(a, Plus(b, c))
  {
  }

  lemma PlusNothing(a: byte)
    ensures Plus(a, 0) == a && Plus(0, a) == a && Plus(a, a) == 0
  {
  }

  /** Two strings of the same length, byte by byte. */
  function Xor(a: seq<byte>, b: seq<byte>): (r: seq<byte>)
    requires |a| == |b|
    ensures |r| == |a|
  {
    seq(|a|, i requires 0 <= i < |a| => Plus(a[i], b[i]))
  }
}
