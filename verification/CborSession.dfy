/** A CBOR writer and a reader on the same buffer. */
module CborSession {
  import opened ByteStrings
  import opened Common
  import opened CborEncoding
  import opened CborWriting
  import opened CborCalls
  import opened CborReading
  import CborReader

  /** What any balanced sequence of calls of os/lib/cbor.c writes is read back with its reader as the items that
      were written, and no byte is left unread. */
  method WriteAndReadBack(calls: seq<Call>, sizeMax: nat) returns (back: Option<seq<Item>>, atEnd: bool)
    requires AllInRange(calls) && Balanced(calls)
    requires AllStructured(ItemsOf(calls)) && MaxDepth(ItemsOf(calls)) <= MAX_NESTING
    requires |EncodeAll(ItemsOf(calls))| <= sizeMax < TWO_TO_THE_64
    ensures back == Some(SeenAll(ItemsOf(calls))) && atEnd
  {
    hide EncodeAll, DecodeMany, SeenAll, MaxDepth, AllWellFormed, AllStructured, Balanced, ItemsOf;
    var items := ItemsOf(calls);
    var size := |EncodeAll(items)|;
    var buffer := new byte[size](_ => 0);
    var length := WriteCalls(calls, buffer, size);
    assert EncodeAll(items) + [] == EncodeAll(items);
    DecodeManyUndoesEncodeAll(items, [], sizeMax);
    var reader := new CborReader.Reader(buffer, length, sizeMax);
    assert reader.Rest() == buffer[..length];
    back := reader.ReadItems(|items|);
    atEnd := reader.EndReader();
  }
}
