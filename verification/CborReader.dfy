/** The CBOR reader of os/lib/cbor.c: a position in a buffer and the number of bytes after it. */
module CborReader {
  import opened Common
  import opened ByteStrings
  import opened CborEncoding
  import opened CborReading

  class Reader {
    const cbor: array<byte>
    const sizeMax: nat    // SIZE_MAX
    var pos: nat
    var size: nat         // `cbor_size`

    ghost predicate Valid()
      reads this
    {
      pos + size <= cbor.Length
    }

    /** The unread bytes. */
    ghost function Rest(): seq<byte>
      reads this, cbor
      requires Valid()
    {
      cbor[pos..pos + size]
    }

    /** `cbor_init_reader` */
    constructor (cbor: array<byte>, size: nat, sizeMax: nat)
      requires size <= cbor.Length
      ensures Valid() && this.cbor == cbor && this.sizeMax == sizeMax && pos == 0 && this.size == size
    {
      this.cbor, this.sizeMax, this.pos, this.size := cbor, sizeMax, 0, size;
    }

    /** `cbor_peek_next` */
    method PeekNext() returns (major: Option<byte>)
      requires Valid()
      ensures major == Peek(Rest())
    {
      major := if size == 0 then None else Some(cbor[pos] & 0xE0);
    }

    /** `cbor_end_reader` */
    method EndReader() returns (atEnd: bool)
      requires Valid()
      ensures atEnd <==> Rest() == []
    {
      atEnd := size == 0;
    }

    /** `read_unsigned`.  On arbitrary input it only ever moves bytes from unread to read. */
    method ReadArgument() returns (value: Option<nat>, sizeClass: byte)
      requires Valid()
      modifies this
      ensures Valid() && pos + size == old(pos + size)
      ensures (value, Rest()) == CborReading.ReadArgument(old(Rest()))
      ensures value.Some? ==> value.value < TWO_TO_THE_64
      ensures value.Some? ==> old(Rest()) != [] && sizeClass == SizeClass(old(Rest())[0])
    {
      hide FromBigEndian, SizeClass;
      sizeClass := 0;
      if size == 0 {
        return None, sizeClass;
      }
      var info := cbor[pos] & 0x1F;
      sizeClass := SizeClass(cbor[pos]);
      pos, size := pos + 1, size - 1;
      assert Rest() == old(Rest())[1..];
      var following := FollowingBytes(info);
      if following.None? {
        return None, sizeClass;
      }
      if following.value == 0 {
        assert Rest()[0..] == Rest();
        return Some(info as nat), sizeClass;
      }
      if following.value > size {
        return None, sizeClass;
      }
      var n := ReadBigEndian(following.value);
      value := Some(n);
    }

    /** The loop that shifts the following bytes into a 64-bit value: at most eight of them, so that
        nothing is shifted out. */
    method ReadBigEndian(n: nat) returns (value: nat)
      requires Valid() && n <= size && n <= 8
      modifies this
      ensures Valid() && pos + size == old(pos + size) && Rest() == old(Rest())[n..]
      ensures value == FromBigEndian(old(Rest())[..n]) < TWO_TO_THE_64
    {
      hide FromBigEndian, Appended;
      ghost var start, bytes, digits := pos, cbor[..], Rest()[..n];
      NoDigits(digits);
      size := size - n;
      value := 0;
      var k := n;
      while k > 0
        invariant 0 <= k <= n && pos == start + (n - k) && size == old(size) - n
        invariant value == FromBigEndian(digits[..n - k])
      {
        k := k - 1;
        OneMoreDigit(digits, n - k - 1);
        value := Appended(value, cbor[pos]);
        pos := pos + 1;
      }
      assert digits[..n] == digits;
      EightBytesFit(digits);
    }

    /** `cbor_read_unsigned` */
    method ReadUnsigned() returns (value: Option<nat>, sizeClass: byte)
      requires Valid()
      modifies this
      ensures Valid() && pos + size == old(pos + size)
      ensures (value, Rest()) == CborReading.ReadUnsigned(old(Rest()))
      ensures value.Some? ==> old(Rest()) != [] && sizeClass == SizeClass(old(Rest())[0])
    {
      hide CborReading.ReadArgument, SizeClass;
      var major := PeekNext();
      if major != Some(UNSIGNED) {
        return None, 0;
      }
      value, sizeClass := ReadArgument();
    }

    /** `cbor_read_signed` */
    method ReadSigned() returns (value: Option<int>, sizeClass: byte)
      requires Valid()
      modifies this
      ensures Valid() && pos + size == old(pos + size)
      ensures (value, Rest()) == CborReading.ReadSigned(old(Rest()))
      ensures value.Some? ==> -TWO_TO_THE_63 <= value.value < TWO_TO_THE_63
      ensures value.Some? ==> old(Rest()) != [] && sizeClass == SizeClass(old(Rest())[0])
    {
      hide CborReading.ReadArgument, SizeClass;
      var major := PeekNext();
      var argument;
      argument, sizeClass := ReadArgument();
      if argument.None? || argument.value >= TWO_TO_THE_63 {
        return None, sizeClass;
      }
      value :=
        if major == Some(UNSIGNED) then Some(argument.value)
        else if major == Some(SIGNED) then Some(-argument.value - 1)
        else None;
    }

    method Take(n: nat) returns (bytes: seq<byte>)
      requires Valid() && n <= size
      modifies this
      ensures Valid() && pos + size == old(pos + size)
      ensures bytes == old(Rest())[..n] && Rest() == old(Rest())[n..]
    {
      bytes := cbor[pos..pos + n];
      pos, size := pos + n, size - n;
    }

    /** `cbor_read_data` and `cbor_read_text`; the bytes stand for the pointer that is returned. */
    method ReadString(major: byte) returns (value: Option<seq<byte>>)
      requires Valid()
      modifies this
      ensures Valid() && pos + size == old(pos + size)
      ensures (value, Rest()) == CborReading.ReadString(old(Rest()), major)
    {
      hide CborReading.ReadArgument;
      var next := PeekNext();
      if next != Some(major) {
        return None;
      }
      var length, sizeClass := ReadArgument();
      if length.None? || size < length.value {
        return None;
      }
      var bytes := Take(length.value);
      value := Some(bytes);
    }

    /** `cbor_read_simple` */
    method ReadSimple() returns (value: Option<byte>)
      requires Valid()
      modifies this
      ensures Valid() && pos + size == old(pos + size)
      ensures (value, Rest()) == CborReading.ReadSimple(old(Rest()))
    {
      if size == 0 {
        return None;
      }
      value := Some(cbor[pos]);
      pos, size := pos + 1, size - 1;
    }

    /** `cbor_read_array` and `cbor_read_map`; None stands for SIZE_MAX. */
    method ReadCount(major: byte) returns (value: Option<nat>)
      requires Valid()
      modifies this
      ensures Valid() && pos + size == old(pos + size)
      ensures (value, Rest()) == CborReading.ReadCount(old(Rest()), major, sizeMax)
    {
      hide CborReading.ReadArgument;
      var next := PeekNext();
      if next != Some(major) {
        return None;
      }
      var sizeClass;
      value, sizeClass := ReadArgument();
      if value.None? || value.value >= sizeMax {
        return None;
      }
    }

    /** A whole item, the way a user of the reader takes it in: peek, then read what there is. */
    method ReadItem() returns (item: Option<Item>)
      requires Valid()
      modifies this
      ensures Valid() && pos + size == old(pos + size)
      ensures item.Some? ==> (item, Rest()) == Decode(old(Rest()), sizeMax)
      ensures item.None? ==> Decode(old(Rest()), sizeMax).0 == None
      decreases size, 0
    {
      hide CborReading.ReadArgument, CborReading.ReadUnsigned, CborReading.ReadSigned,
           CborReading.ReadString, CborReading.ReadCount, DecodeMany;
      item := None;
      var major := PeekNext();
      if major.None? {
      } else if major.value == UNSIGNED {
        var v, sizeClass := ReadUnsigned();
        if v.Some? { item := Some(Int(v.value)); }
      } else if major.value == SIGNED {
        var v, sizeClass := ReadSigned();
        if v.Some? { item := Some(Int(v.value)); }
      } else if major.value == BYTE_STRING {
        var v := ReadString(BYTE_STRING);
        if v.Some? { item := Some(Bytes(v.value)); }
      } else if major.value == TEXT_STRING {
        var v := ReadString(TEXT_STRING);
        if v.Some? { item := Some(Text(v.value)); }
      } else if major.value == ARRAY {
        var n := ReadCount(ARRAY);
        if n.Some? {
          var items := ReadItems(n.value);
          if items.Some? { item := Some(Array(items.value)); }
        }
      } else if major.value == MAP {
        var n := ReadCount(MAP);
        if n.Some? {
          var items := ReadItems(2 * n.value);
          if items.Some? { item := Some(Map(items.value)); }
        }
      } else {
        var v := ReadSimple();
        if v.Some? { item := SimpleItem(v.value); }
      }
    }

    method ReadItems(n: nat) returns (items: Option<seq<Item>>)
      requires Valid()
      modifies this
      ensures Valid() && pos + size == old(pos + size)
      ensures items.Some? ==> (items, Rest()) == DecodeMany(old(Rest()), n, sizeMax)
      ensures items.None? ==> DecodeMany(old(Rest()), n, sizeMax).0 == None
      decreases size, 1, n
    {
      hide Decode;
      if n == 0 {
        return Some([]);
      }
      var first := ReadItem();
      if first.None? {
        return None;
      }
      var others := ReadItems(n - 1);
      items := if others.Some? then Some([first.value] + others.value) else None;
    }
  }

  lemma NoDigits(digits: seq<byte>)
    ensures FromBigEndian(digits[..0]) == 0
  {
  }

  /** The value with one more byte behind it. */
  function Appended(value: nat, digit: byte): nat { value * 256 + digit as nat }

  lemma OneMoreDigit(digits: seq<byte>, j: nat)
    requires j < |digits|
    ensures FromBigEndian(digits[..j + 1]) == Appended(FromBigEndian(digits[..j]), digits[j])
  {
    assert digits[..j + 1][..j] == digits[..j];
  }

  lemma EightBytesFit(s: seq<byte>)
    requires |s| <= 8
    ensures FromBigEndian(s) < TWO_TO_THE_64
  {
    FromBigEndianFits(s);
    Pow256Grows(|s|, 8);
    ArgumentFits(TWO_TO_THE_64 - 1);
  }

  lemma {:induction false} Pow256Grows(m: nat, n: nat)
    requires m <= n
    ensures Pow256(m) <= Pow256(n)
    decreases n
  {
    if m < n {
      Pow256Grows(m, n - 1);
    }
  }
}
