/** What the CBOR reader makes of the bytes in front of it, and that it undoes the writer. */
module CborReading {
  import opened Common
  import opened Bits
  import opened ByteStrings
  import opened CborEncoding

  /** `cbor_peek_next`: the major type of the next item, if there is one. */
  function Peek(s: seq<byte>): Option<byte> {
    if s == [] then None else Some(s[0] & 0xE0)
  }

  function FromBigEndian(s: seq<byte>): nat {
    if s == [] then 0 else FromBigEndian(s[..|s| - 1]) * 256 + s[|s| - 1] as nat
  }

  /** How many bytes follow an initial byte with the given additional information; none of the
      values above 27 has a meaning here. */
  function FollowingBytes(info: byte): Option<nat> {
    if info < 24 then Some(0)
    else if info == 24 then Some(1)
    else if info == 25 then Some(2)
    else if info == 26 then Some(4)
    else if info == 27 then Some(8)
    else None
  }

  /** The `cbor_size_t` that reading a head returns: by its first byte, with one byte for all small values. */
  function SizeClass(first: byte): byte {
    if first & 0x1F < 24 then 24 else first & 0x1F
  }

  /** `read_unsigned`: the argument of a head, and what is left to read afterwards. */
  function ReadArgument(s: seq<byte>): (r: (Option<nat>, seq<byte>))
    ensures |r.1| <= |s| && (s != [] ==> |r.1| < |s|)
  {
    if s == [] then (None, s) else
    var info, rest := s[0] & 0x1F, s[1..];
    match FollowingBytes(info)
    case None => (None, rest)
    case Some(n) =>
      if n > |rest| then (None, rest)
      else if n == 0 then (Some(info as nat), rest)
      else (Some(FromBigEndian(rest[..n])), rest[n..])
  }

  /** `cbor_read_unsigned` */
  function ReadUnsigned(s: seq<byte>): (Option<nat>, seq<byte>) {
    if Peek(s) != Some(UNSIGNED) then (None, s) else ReadArgument(s)
  }

  /** `cbor_read_signed` */
  function ReadSigned(s: seq<byte>): (Option<int>, seq<byte>) {
    var (argument, rest) := ReadArgument(s);
    if argument == None || argument.value >= TWO_TO_THE_63 then (None, rest)
    else if Peek(s) == Some(UNSIGNED) then (Some(argument.value), rest)
    else if Peek(s) == Some(SIGNED) then (Some(-1 - argument.value), rest)
    else (None, rest)
  }

  /** `cbor_read_data` and `cbor_read_text` */
  function ReadString(s: seq<byte>, major: byte): (Option<seq<byte>>, seq<byte>) {
    if Peek(s) != Some(major) then (None, s) else
    var (argument, rest) := ReadArgument(s);
    if argument == None || argument.value > |rest| then (None, rest)
    else (Some(rest[..argument.value]), rest[argument.value..])
  }

  /** `cbor_read_simple` */
  function ReadSimple(s: seq<byte>): (Option<byte>, seq<byte>) {
    if s == [] then (None, s) else (Some(s[0]), s[1..])
  }

  /** `cbor_read_array` and `cbor_read_map`: the number of elements or pairs. */
  function ReadCount(s: seq<byte>, major: byte, sizeMax: nat): (r: (Option<nat>, seq<byte>))
    ensures r.0.Some? ==> |r.1| < |s|
  {
    if Peek(s) != Some(major) then (None, s) else
    var (argument, rest) := ReadArgument(s);
    if argument == None || argument.value >= sizeMax then (None, rest) else (argument, rest)
  }

  // ---------------------------------------------------------------------------------------------
  // Whole items

  /** The item at the front of `s`, read with the functions above, and what follows it. */
  function Decode(s: seq<byte>, sizeMax: nat): (r: (Option<Item>, seq<byte>))
    ensures r.0.Some? ==> |r.1| < |s|
    decreases |s|, 0
  {
    match Peek(s)
    case None => (None, s)
    case Some(major) =>
      if major == UNSIGNED then
        var (v, rest) := ReadUnsigned(s);
        (if v.Some? then Some(Int(v.value)) else None, rest)
      else if major == SIGNED then
        var (v, rest) := ReadSigned(s);
        (if v.Some? then Some(Int(v.value)) else None, rest)
      else if major == BYTE_STRING then
        var (v, rest) := ReadString(s, BYTE_STRING);
        (if v.Some? then Some(Bytes(v.value)) else None, rest)
      else if major == TEXT_STRING then
        var (v, rest) := ReadString(s, TEXT_STRING);
        (if v.Some? then Some(Text(v.value)) else None, rest)
      else if major == ARRAY then
        var (n, rest) := ReadCount(s, ARRAY, sizeMax);
        if n.None? then (None, rest) else
        var (items, rest') := DecodeMany(rest, n.value, sizeMax);
        (if items.Some? then Some(Array(items.value)) else None, rest')
      else if major == MAP then
        var (n, rest) := ReadCount(s, MAP, sizeMax);
        if n.None? then (None, rest) else
        var (items, rest') := DecodeMany(rest, 2 * n.value, sizeMax);
        (if items.Some? then Some(Map(items.value)) else None, rest')
      else
        var (v, rest) := ReadSimple(s);
        (SimpleItem(v.value), rest)
  }

  function SimpleItem(v: byte): Option<Item> {
    if v == SIMPLE_FALSE then Some(Bool(false))
    else if v == SIMPLE_TRUE then Some(Bool(true))
    else if v == SIMPLE_NULL then Some(Null)
    else if v == SIMPLE_UNDEFINED then Some(Undefined)
    else None
  }

  function DecodeMany(s: seq<byte>, n: nat, sizeMax: nat): (r: (Option<seq<Item>>, seq<byte>))
    ensures r.0.Some? ==> |r.1| <= |s|
    decreases |s|, 1
  {
    if n == 0 then (Some([]), s) else
    var (first, rest) := Decode(s, sizeMax);
    if first.None? then (None, rest) else
    var (others, rest') := DecodeMany(rest, n - 1, sizeMax);
    (if others.Some? then Some([first.value] + others.value) else None, rest')
  }

  // ---------------------------------------------------------------------------------------------
  // Reading back

  /** What a reader sees of an item: wrapped items are a byte string to it. */
  function Seen(item: Item): Item
    requires WellFormed(item)
  {
    match item
    case Array(items) => Array(SeenAll(items))
    case Map(entries) => Map(SeenAll(entries))
    case Wrapped(items) => Bytes(EncodeAll(items))
    case _ => item
  }

  function SeenAll(items: seq<Item>): (r: seq<Item>)
    requires AllWellFormed(items)
    ensures |r| == |items|
  {
    if items == [] then [] else [Seen(items[0])] + SeenAll(items[1..])
  }

  /** No part of the item came encoded already, so that its structure is known. */
  predicate Structured(item: Item) {
    match item
    case Array(items) => AllStructured(items)
    case Map(entries) => AllStructured(entries)
    case Encoded(_) => false
    case _ => true
  }

  predicate AllStructured(items: seq<Item>) {
    items == [] || (Structured(items[0]) && AllStructured(items[1..]))
  }

  function Pow256(n: nat): nat {
    if n == 0 then 1 else 256 * Pow256(n - 1)
  }

  lemma {:induction false} BigEndianReadsBack(v: nat, n: nat)
    requires v < Pow256(n)
    ensures FromBigEndian(BigEndian(v, n)) == v
  {
    if n > 0 {
      BigEndianReadsBack(v / 256, n - 1);
      var s := BigEndian(v, n);
      assert s[..n - 1] == BigEndian(v / 256, n - 1);
      ByteReadsBack(v % 256);
    }
  }

  lemma {:induction false} FromBigEndianFits(s: seq<byte>)
    ensures FromBigEndian(s) < Pow256(|s|)
  {
    if s != [] {
      FromBigEndianFits(s[..|s| - 1]);
    }
  }

  lemma ArgumentFits(v: nat)
    requires v < TWO_TO_THE_64
    ensures v < 24 || v < Pow256(ArgumentSize(v))
  {
    assert Pow256(1) == 256;
    assert Pow256(2) == 0x1_0000;
    assert Pow256(4) == 0x1_0000_0000 by { assert Pow256(4) == 256 * 256 * Pow256(2); }
    assert Pow256(8) == TWO_TO_THE_64 by { assert Pow256(8) == 256 * 256 * (256 * 256 * Pow256(4)); }
  }

  lemma AdditionalInformationReadsBack(v: nat)
    ensures AdditionalInformation(v) < 32
    ensures FollowingBytes(AdditionalInformation(v)) == Some(ArgumentSize(v))
    ensures v < 24 <==> ArgumentSize(v) == 0
    ensures v < 24 ==> AdditionalInformation(v) as nat == v
  {
    if v < 24 {
      ByteReadsBack(v);
    }
  }

  /** A head that the writer makes is read back as its major type and its argument. */
  lemma HeadReadsBack(major: byte, v: nat, rest: seq<byte>)
    requires major & 0x1F == 0 && v < TWO_TO_THE_64
    ensures Peek(Head(major, v) + rest) == Some(major)
    ensures ReadArgument(Head(major, v) + rest) == (Some(v), rest)
  {
    hide BigEndian, FromBigEndian, Pow256, FollowingBytes, AdditionalInformation, ArgumentSize;
    var s := Head(major, v) + rest;
    var info, n := AdditionalInformation(v), ArgumentSize(v);
    AdditionalInformationReadsBack(v);
    assert s[0] == major | info && s[1..] == BigEndian(v, n) + rest;
    if ArgumentSize(v) != 0 {
      ArgumentFits(v);
      BigEndianReadsBack(v, n);
      assert s[1..][..n] == BigEndian(v, n) && s[1..][n..] == rest;
    }
  }

  /** A head as section 3 of RFC 8949 has it, and the shortest there is (section 4.2.1): three bits for the major
      type and five for a small value, or for the number of bytes, most significant first, that hold the value. */
  lemma HeadIsStandard(major: byte, v: nat)
    requires major & 0x1F == 0 && v < TWO_TO_THE_64
    ensures var head := Head(major, v);
            var info, n := head[0] & 0x1F, |head| - 1;
      && head[0] & 0xE0 == major
      && (if v < 24 then n == 0 && info as nat == v
          else if v < 0x100 then info == 24 && n == 1
          else if v < 0x1_0000 then info == 25 && n == 2
          else if v < 0x1_0000_0000 then info == 26 && n == 4
          else info == 27 && n == 8)
      && forall i :: 1 <= i <= n ==> head[i] == Digit(v, n - i)
  {
    hide BigEndian, Digit;
    AdditionalInformationReadsBack(v);
    DigitsOfHead(major, v);
  }

  lemma DigitsOfHead(major: byte, v: nat)
    ensures var head := Head(major, v);
            var n := |head| - 1;
            forall i :: 1 <= i <= n ==> head[i] == Digit(v, n - i)
  {
    hide BigEndian, Digit, AdditionalInformation, ArgumentSize;
    var head, n := Head(major, v), ArgumentSize(v);
    forall i | 1 <= i <= n
      ensures head[i] == Digit(v, n - i)
    {
      BigEndianAt(v, n, i - 1);
    }
  }

  /** On any input a head is read if and only if its additional information is below 28 and the bytes that follow are
      all there; then its argument is what these bytes say, and reading goes on behind them. */
  lemma HeadIsRead(s: seq<byte>)
    requires s != []
    ensures var info, r := s[0] & 0x1F, ReadArgument(s);
      var n: nat :=
        if info < 24 then 0 else if info == 24 then 1 else if info == 25 then 2 else if info == 26 then 4 else 8;
      && (r.0.Some? <==> info < 28 && n < |s|)
      && (r.0.Some? ==> r.1 == s[1 + n..])
      && (r.0.Some? && n == 0 ==> r.0.value == info as nat)
      && (r.0.Some? && n > 0 ==> BigEndian(r.0.value, n) == s[1..1 + n])
  {
    hide FromBigEndian, BigEndian;
    var info := s[0] & 0x1F;
    if info >= 24 && info < 28 {
      var n: nat := if info == 24 then 1 else if info == 25 then 2 else if info == 26 then 4 else 8;
      if n < |s| {
        assert s[1..][..n] == s[1..1 + n] && s[1..][n..] == s[1 + n..];
        BytesWrittenBack(s[1..1 + n]);
      }
    }
  }

  lemma {:induction false} BytesWrittenBack(s: seq<byte>)
    ensures BigEndian(FromBigEndian(s), |s|) == s
  {
    hide LowByte;
    if s != [] {
      var n := |s| - 1;
      BytesWrittenBack(s[..n]);
      LastByte(FromBigEndian(s[..n]), s[n]);
      assert s == s[..n] + [s[n]];
    }
  }

  lemma LastByte(high: nat, b: byte)
    ensures (high * 256 + b as nat) / 256 == high && LowByte(high * 256 + b as nat) == b
  {
    hide LowByte;
    LowByteIs(high, b as nat, b);
  }

  lemma LowByteIs(high: nat, low: nat, b: byte)
    requires low < 256 && low as byte == b
    ensures (high * 256 + low) / 256 == high && LowByte(high * 256 + low) == b
  {
    ModIsUnique(high * 256 + low, 256, high, low);
  }

  /** Of what the writer writes that is the smallest size that holds the value. */
  lemma SizeOfShortestHead(major: byte, v: nat)
    requires major & 0x1F == 0 && v < TWO_TO_THE_64
    ensures SizeClass(Head(major, v)[0]) ==
      if v <= 0xFF then 24 else if v <= 0xFFFF then 25 else if v <= 0xFFFF_FFFF then 26 else 27
  {
    hide BigEndian, AdditionalInformation;
    InformationOfValue(v);
  }

  lemma InformationOfValue(v: nat)
    requires v < TWO_TO_THE_64
    ensures AdditionalInformation(v) < 32
    ensures (if AdditionalInformation(v) < 24 then 24 else AdditionalInformation(v)) ==
            if v <= 0xFF then 24 else if v <= 0xFFFF then 25 else if v <= 0xFFFF_FFFF then 26 else 27
  {
    AdditionalInformationReadsBack(v);
  }

  lemma NumberReadsBack(v: int, rest: seq<byte>, sizeMax: nat)
    requires WellFormed(Int(v))
    ensures Decode(Encode(Int(v)) + rest, sizeMax) == (Some(Int(v)), rest)
  {
    hide Head, ReadArgument;
    if v >= 0 { HeadReadsBack(UNSIGNED, v, rest); } else { HeadReadsBack(SIGNED, -1 - v, rest); }
  }

  /** A number of either sign is read back by `cbor_read_signed` if it fits an int64_t, and refused otherwise. */
  lemma SignedReadsBack(v: int, rest: seq<byte>)
    requires -TWO_TO_THE_64 <= v < TWO_TO_THE_64
    ensures var head := if v >= 0 then Head(UNSIGNED, v) else Head(SIGNED, -1 - v);
      && ReadSigned(head + rest) == (if -TWO_TO_THE_63 <= v < TWO_TO_THE_63 then Some(v) else None, rest)
      && (WellFormed(Int(v)) ==> Encode(Int(v)) == head)
  {
    hide Head, ReadArgument;
    if v >= 0 { HeadReadsBack(UNSIGNED, v, rest); } else { HeadReadsBack(SIGNED, -1 - v, rest); }
  }

  /** So are the heads of all other items. */
  lemma OthersAreNotSigned(major: byte, v: nat, rest: seq<byte>)
    requires major & 0x1F == 0 && v < TWO_TO_THE_64 && major != UNSIGNED && major != SIGNED
    ensures ReadSigned(Head(major, v) + rest) == (None, rest)
  {
    hide Head, ReadArgument;
    HeadReadsBack(major, v, rest);
  }

  /** A string that is not all there is refused, and so is a count that a `size_t` cannot stand for; an item of another
      type is refused and left where it is. */
  lemma ReadsThatFail(major: byte, v: nat, rest: seq<byte>, sizeMax: nat)
    requires major & 0x1F == 0 && v < TWO_TO_THE_64
    ensures var s := Head(major, v) + rest;
      && (v > |rest| ==> ReadString(s, major) == (None, rest))
      && (v >= sizeMax ==> ReadCount(s, major, sizeMax) == (None, rest))
      && (major != UNSIGNED ==> ReadUnsigned(s) == (None, s))
      && forall other :: other != major ==>
           ReadString(s, other) == (None, s) && ReadCount(s, other, sizeMax) == (None, s)
  {
    hide Head, ReadArgument;
    HeadReadsBack(major, v, rest);
  }

  /** Strings and simple values. */
  lemma LeafReadsBack(item: Item, rest: seq<byte>, sizeMax: nat)
    requires WellFormed(item) && !item.Int? && !item.Array? && !item.Map? && Structured(item)
    requires |Encode(item) + rest| < TWO_TO_THE_64
    ensures Decode(Encode(item) + rest, sizeMax) == (Some(Seen(item)), rest)
  {
    hide Head, ReadString, EncodeAll;
    match item
    case Bytes(s) => StringReadsBack(BYTE_STRING, s, rest);
    case Text(s) => StringReadsBack(TEXT_STRING, s, rest);
    case Null => SimpleReadsBack(SIMPLE_NULL, rest);
    case Undefined => SimpleReadsBack(SIMPLE_UNDEFINED, rest);
    case Bool(b) => SimpleReadsBack(if b then SIMPLE_TRUE else SIMPLE_FALSE, rest);
    case Wrapped(items) => StringReadsBack(BYTE_STRING, EncodeAll(items), rest);
  }

  /** Reading gives back what was written, and stops where it ended. */
  lemma {:induction false} DecodeUndoesEncode(item: Item, rest: seq<byte>, sizeMax: nat)
    requires WellFormed(item) && Structured(item)
    requires |Encode(item) + rest| <= sizeMax < TWO_TO_THE_64
    ensures Decode(Encode(item) + rest, sizeMax) == (Some(Seen(item)), rest)
    decreases item, 1
  {
    hide Head, ReadCount, EncodeAll, SeenAll;
    if item.Int? {
      NumberReadsBack(item.v, rest, sizeMax);
    } else if item.Array? {
      var items := item.items;
      CountReadsBack(ARRAY, |items|, EncodeAll(items) + rest, Encode(item) + rest, sizeMax);
      DecodeManyUndoesEncodeAll(items, rest, sizeMax);
    } else if item.Map? {
      var entries := item.entries;
      CountReadsBack(MAP, |entries| / 2, EncodeAll(entries) + rest, Encode(item) + rest, sizeMax);
      DecodeManyUndoesEncodeAll(entries, rest, sizeMax);
    } else {
      LeafReadsBack(item, rest, sizeMax);
    }
  }

  lemma StringReadsBack(major: byte, s: seq<byte>, rest: seq<byte>)
    requires major & 0x1F == 0 && |s| < TWO_TO_THE_64
    ensures Peek(Head(major, |s|) + s + rest) == Some(major)
    ensures ReadString(Head(major, |s|) + s + rest, major) == (Some(s), rest)
  {
    HeadReadsBack(major, |s|, s + rest);
    assert Head(major, |s|) + s + rest == Head(major, |s|) + (s + rest);
    assert (s + rest)[..|s|] == s && (s + rest)[|s|..] == rest;
  }

  lemma SimpleReadsBack(v: byte, rest: seq<byte>)
    requires v in {SIMPLE_FALSE, SIMPLE_TRUE, SIMPLE_NULL, SIMPLE_UNDEFINED}
    ensures Peek([v] + rest) == Some(SIMPLE) && ReadSimple([v] + rest) == (Some(v), rest)
  {
    assert ([v] + rest)[1..] == rest;
  }

  lemma CountReadsBack(major: byte, n: nat, tail: seq<byte>, s: seq<byte>, sizeMax: nat)
    requires major & 0x1F == 0 && n < sizeMax < TWO_TO_THE_64
    requires s == Head(major, n) + tail
    ensures Peek(s) == Some(major) && ReadCount(s, major, sizeMax) == (Some(n), tail)
  {
    HeadReadsBack(major, n, tail);
  }

  lemma {:induction false} DecodeManyUndoesEncodeAll(items: seq<Item>, rest: seq<byte>, sizeMax: nat)
    requires AllWellFormed(items) && AllStructured(items)
    requires |EncodeAll(items) + rest| <= sizeMax < TWO_TO_THE_64
    ensures DecodeMany(EncodeAll(items) + rest, |items|, sizeMax) == (Some(SeenAll(items)), rest)
    decreases items, 0
  {
    if items == [] {
      assert EncodeAll(items) + rest == rest;
    } else {
      var tail := EncodeAll(items[1..]) + rest;
      assert EncodeAll(items) + rest == Encode(items[0]) + tail;
      DecodeUndoesEncode(items[0], tail, sizeMax);
      DecodeManyUndoesEncodeAll(items[1..], rest, sizeMax);
    }
  }
}
