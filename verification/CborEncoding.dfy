/** CBOR data items and their shortest definite-length encoding (RFC 8949, sections 3 and 4.1), for
    the types that os/lib/cbor.c writes. */
module CborEncoding {
  import opened ByteStrings

  const UNSIGNED: byte := 0x00
  const SIGNED: byte := 0x20
  const BYTE_STRING: byte := 0x40
  const TEXT_STRING: byte := 0x60
  const ARRAY: byte := 0x80
  const MAP: byte := 0xA0
  const SIMPLE: byte := 0xE0

  const SIMPLE_FALSE: byte := 0xF4
  const SIMPLE_TRUE: byte := 0xF5
  const SIMPLE_NULL: byte := 0xF6
  const SIMPLE_UNDEFINED: byte := 0xF7

  const TWO_TO_THE_63 := 0x8000_0000_0000_0000
  const TWO_TO_THE_64 := 0x1_0000_0000_0000_0000

  datatype Item =
    | Int(v: int)
    | Bytes(s: seq<byte>)
    | Text(s: seq<byte>)
    | Null
    | Undefined
    | Bool(b: bool)
    | Array(items: seq<Item>)
    | Map(entries: seq<Item>)      // keys and values in turn
    | Wrapped(items: seq<Item>)    // a byte string that holds encoded items
    | Encoded(bytes: seq<byte>)    // an object that comes encoded already

  /** What the C types and the data model ask of an item: integers fit int64_t or uint64_t, every key
      of a map has its value, and an encoded object is not empty. */
  predicate WellFormed(item: Item) {
    match item
    case Int(v) => -TWO_TO_THE_63 <= v < TWO_TO_THE_64
    case Array(items) => AllWellFormed(items)
    case Map(entries) => |entries| % 2 == 0 && AllWellFormed(entries)
    case Wrapped(items) => AllWellFormed(items)
    case Encoded(bytes) => bytes != []
    case _ => true
  }

  predicate AllWellFormed(items: seq<Item>) {
    items == [] || (WellFormed(items[0]) && AllWellFormed(items[1..]))
  }

  /** How many bytes follow the initial byte of a head with argument `v`. */
  function ArgumentSize(v: nat): nat {
    if v < 24 then 0
    else if v <= 0xFF then 1
    else if v <= 0xFFFF then 2
    else if v <= 0xFFFF_FFFF then 4
    else 8
  }

  /** The additional information, the low five bits of the initial byte. */
  function AdditionalInformation(v: nat): byte {
    if v < 24 then v as byte
    else if v <= 0xFF then 24
    else if v <= 0xFFFF then 25
    else if v <= 0xFFFF_FFFF then 26
    else 27
  }

  /** An initial byte and its argument, in the fewest bytes. */
  function Head(major: byte, v: nat): (r: seq<byte>)
    ensures |r| == 1 + ArgumentSize(v)
  {
    [major | AdditionalInformation(v)] + BigEndian(v, ArgumentSize(v))
  }

  function Encode(item: Item): (r: seq<byte>)
    requires WellFormed(item)
    ensures |r| > 0
  {
    match item
    case Int(v) => if v >= 0 then Head(UNSIGNED, v) else Head(SIGNED, -1 - v)
    case Bytes(s) => Head(BYTE_STRING, |s|) + s
    case Text(s) => Head(TEXT_STRING, |s|) + s
    case Null => [SIMPLE_NULL]
    case Undefined => [SIMPLE_UNDEFINED]
    case Bool(b) => [if b then SIMPLE_TRUE else SIMPLE_FALSE]
    case Array(items) => Head(ARRAY, |items|) + EncodeAll(items)
    case Map(entries) => Head(MAP, |entries| / 2) + EncodeAll(entries)
    case Wrapped(items) => Head(BYTE_STRING, |EncodeAll(items)|) + EncodeAll(items)
    case Encoded(bytes) => bytes
  }

  function EncodeAll(items: seq<Item>): (r: seq<byte>)
    requires AllWellFormed(items)
    ensures |r| >= |items|
  {
    if items == [] then [] else Encode(items[0]) + EncodeAll(items[1..])
  }

  /** How many containers are open at once while the item is written. */
  function Depth(item: Item): nat {
    match item
    case Array(items) => 1 + MaxDepth(items)
    case Map(entries) => 1 + MaxDepth(entries)
    case Wrapped(items) => 1 + MaxDepth(items)
    case _ => 0
  }

  function MaxDepth(items: seq<Item>): nat {
    if items == [] then 0
    else
      var first, rest := Depth(items[0]), MaxDepth(items[1..]);
      if first > rest then first else rest
  }

  // ---------------------------------------------------------------------------------------------
  // Examples

  /** The items of appendix A of RFC 8949 that are one byte long. */
  lemma SmallestItems()
    ensures Encode(Int(0)) == [0x00] && Encode(Int(-1)) == [0x20]
    ensures Encode(Bytes([])) == [0x40] && Encode(Text([])) == [0x60]
    ensures Encode(Array([])) == [0x80] && Encode(Map([])) == [0xA0]
    ensures Encode(Bool(false)) == [0xF4] && Encode(Bool(true)) == [0xF5]
    ensures Encode(Null) == [0xF6] && Encode(Undefined) == [0xF7]
  {
    assert BigEndian(0, 0) == [];
    assert AdditionalInformation(0) == 0;
  }

  lemma SmallHeads()
    ensures Head(UNSIGNED, 1) == [0x01] && Head(UNSIGNED, 2) == [0x02] && Head(BYTE_STRING, 4) == [0x44]
    ensures Head(BYTE_STRING, 2) == [0x42] && Head(TEXT_STRING, 1) == [0x61]
    ensures Head(ARRAY, 2) == [0x82] && Head(MAP, 1) == [0xA1]
  {
    assert BigEndian(1, 0) == BigEndian(2, 0) == BigEndian(4, 0) == [];
  }

  lemma TwoItems(a: Item, b: Item)
    requires WellFormed(a) && WellFormed(b)
    ensures AllWellFormed([a, b]) && EncodeAll([a, b]) == Encode(a) + Encode(b)
  {
    hide Encode, WellFormed;
    assert [b][1..] == [];
    assert AllWellFormed([]) && AllWellFormed([b]) && EncodeAll([b]) == Encode(b) + EncodeAll([]);
    assert [a, b][0] == a && [a, b][1..] == [b];
    assert AllWellFormed([a, b]) && EncodeAll([a, b]) == Encode(a) + EncodeAll([b]);
  }

  /** Strings, and a list of two elements, a map of one pair and a byte string that holds two items. */
  lemma SmallContainers()
    ensures Encode(Bytes([1, 2, 3, 4])) == [0x44, 0x01, 0x02, 0x03, 0x04] && Encode(Text([0x61])) == [0x61, 0x61]
    ensures AllWellFormed([Int(1), Int(2)])
    ensures Encode(Array([Int(1), Int(2)])) == [0x82, 0x01, 0x02]
    ensures Encode(Map([Int(1), Int(2)])) == [0xA1, 0x01, 0x02]
    ensures Encode(Wrapped([Int(1), Int(2)])) == [0x42, 0x01, 0x02]
  {
    hide Head;
    SmallHeads();
    TwoItems(Int(1), Int(2));
  }
}
