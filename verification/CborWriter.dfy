/** The CBOR writer of os/lib/cbor.c.  A container is opened with one byte; its length is not known
    until it is closed, and is then inserted behind that byte, which moves what follows. */
module CborWriter {
  import opened ByteStrings
  import opened CborEncoding
  import opened CborWriting

  /** `cbor_nesting_record_t`; the start is an offset into the buffer. */
  datatype Record = Record(start: nat, objects: nat)

  /** Where the content of the `i`-th frame starts in the buffer. */
  function Start(frames: seq<Frame>, i: nat): nat
    requires 0 < i < |frames|
  {
    |Flatten(frames[..i])| + 1
  }

  /** The records of the open containers, innermost at the lowest index in use. */
  ghost predicate RecordsMatch(frames: seq<Frame>, records: seq<Record>)
    requires |records| == MAX_NESTING && 0 < |frames| <= MAX_NESTING + 1
  {
    forall i {:trigger frames[i]} :: 0 < i < |frames| ==>
      records[MAX_NESTING - i] == Record(Start(frames, i), frames[i].objects)
  }

  /** `increment`: one more object in the innermost container, if there is one. */
  function Incremented(records: seq<Record>, depth: nat): (r: seq<Record>)
    requires |records| == MAX_NESTING
    ensures |r| == MAX_NESTING
  {
    if depth < MAX_NESTING then records[depth := records[depth].(objects := records[depth].objects + 1)] else records
  }

  lemma ExtendedRecords(frames: seq<Frame>, records: seq<Record>, bytes: seq<byte>)
    requires |records| == MAX_NESTING && 0 < |frames| <= MAX_NESTING + 1 && RecordsMatch(frames, records)
    ensures RecordsMatch(Extended(frames, bytes, 1), Incremented(records, MAX_NESTING + 1 - |frames|))
  {
    hide Flatten;
    var r := Extended(frames, bytes, 1);
    forall i | 0 < i < |r|
      ensures Incremented(records, MAX_NESTING + 1 - |frames|)[MAX_NESTING - i] == Record(Start(r, i), r[i].objects)
    {
      assert r[..i] == frames[..i] && frames[i].objects <= r[i].objects;
    }
  }

  lemma OpenedRecords(frames: seq<Frame>, records: seq<Record>, first: byte)
    requires |records| == MAX_NESTING && 0 < |frames| <= MAX_NESTING && RecordsMatch(frames, records)
    ensures RecordsMatch(frames + [Frame(first, [], 0)],
                         records[MAX_NESTING - |frames| := Record(|Flatten(frames)| + 1, 0)])
  {
    hide Flatten;
    var r, n := frames + [Frame(first, [], 0)], |frames|;
    var after := records[MAX_NESTING - n := Record(|Flatten(frames)| + 1, 0)];
    forall i | 0 < i < |r|
      ensures after[MAX_NESTING - i] == Record(Start(r, i), r[i].objects)
    {
      assert r[..i] == frames[..i];
      if i < n {
        assert r[i] == frames[i] && after[MAX_NESTING - i] == records[MAX_NESTING - i];
      } else {
        assert frames[..i] == frames;
      }
    }
  }

  lemma ClosedRecords(frames: seq<Frame>, records: seq<Record>, bytes: seq<byte>)
    requires |records| == MAX_NESTING && 1 < |frames| <= MAX_NESTING + 1 && RecordsMatch(frames, records)
    ensures RecordsMatch(Extended(frames[..|frames| - 1], bytes, 0), records)
  {
    hide Flatten;
    var outer := frames[..|frames| - 1];
    var r := Extended(outer, bytes, 0);
    forall i | 0 < i < |r|
      ensures records[MAX_NESTING - i] == Record(Start(r, i), r[i].objects)
    {
      assert r[..i] == frames[..i] && r[i].objects == frames[i].objects;
    }
  }

  lemma InnermostRecord(frames: seq<Frame>, records: seq<Record>)
    requires |records| == MAX_NESTING && 1 < |frames| <= MAX_NESTING + 1 && RecordsMatch(frames, records)
    ensures var n := |frames| - 1;
      records[MAX_NESTING - n] == Record(|Flatten(frames[..n])| + 1, frames[n].objects)
  {
    hide Flatten;
    assert frames[|frames| - 1].objects >= 0;
  }

  /** Where the innermost container's first byte and content lie in the buffer. */
  lemma TopOfBuffer(frames: seq<Frame>)
    requires |frames| > 1
    ensures var n := |frames| - 1;
      var before := Flatten(frames[..n]);
      && |Flatten(frames)| == |before| + 1 + |frames[n].content|
      && Flatten(frames)[..|before|] == before
      && Flatten(frames)[|before|] == frames[n].first
      && Flatten(frames)[|before| + 1..] == frames[n].content
  {
  }

  /** `destination[-1] |= ...` */
  function Tagged(first: byte, value: nat): byte {
    first | AdditionalInformation(value)
  }

  lemma HeadParts(major: byte, value: nat)
    ensures Head(major, value) == [Tagged(major, value)] + BigEndian(value, ArgumentSize(value))
    ensures value < 24 ==> ArgumentSize(value) == 0 && BigEndian(value, ArgumentSize(value)) == []
  {
  }

  /** The buffer after an insertion: `moved` once the rest has been moved up, `now` once the argument
      is stored in the gap. */
  lemma Inserted(was: seq<byte>, moved: seq<byte>, now: seq<byte>, d: nat, pos: nat, argument: seq<byte>)
    requires d <= pos && pos + |argument| <= |was| && |was| == |moved| == |now|
    requires moved[..d] == was[..d]
    requires moved[d + |argument|..d + |argument| + (pos - d)] == was[d..pos]
    requires now[d..d + |argument|] == argument
    requires now[..d] == moved[..d] && now[d + |argument|..] == moved[d + |argument|..]
    ensures now[..pos + |argument|] == was[..d] + argument + was[d..pos]
  {
    var n := |argument|;
    assert now[d + n..pos + n] == now[d + n..][..pos - d] == moved[d + n..][..pos - d] == was[d..pos];
    assert now[..pos + n] == now[..d] + now[d..d + n] + now[d + n..pos + n];
  }

  /** Around the last byte of the front part. */
  lemma WithFirstByte(was: seq<byte>, first: byte, d: nat, pos: nat, argument: seq<byte>)
    requires 0 < d <= pos <= |was|
    ensures var orred := was[d - 1 := first];
      orred[..d] + argument + orred[d..pos] == was[..d - 1] + ([first] + argument) + was[d..pos]
  {
    assert was[d - 1 := first][..d] == was[..d - 1] + [first];
  }

  class Writer {
    const buffer: array<byte>
    const capacity: nat       // the size given to `cbor_init_writer`
    var broken: bool          // `buffer == NULL`
    var pos: nat              // `buffer - buffer_head`
    var size: nat             // `buffer_size`
    var depth: nat            // `nesting_depth`: how many more containers may be opened
    var records: seq<Record>
    ghost var frames: seq<Frame>

    ghost predicate Shape()
      reads this
    {
      && capacity <= buffer.Length
      && |records| == MAX_NESTING && depth <= MAX_NESTING
      && if broken then size == 0 else pos + size == capacity
    }

    ghost predicate Valid()
      reads this, buffer
    {
      && Shape()
      && (!broken ==>
           && |frames| == MAX_NESTING + 1 - depth
           && buffer[..pos] == Flatten(frames)
           && RecordsMatch(frames, records))
    }

    ghost function State(): (w: CborWriting.Writer)
      reads this
      ensures w.Writing? ==> !broken && w.frames == frames
    {
      if broken then Broken else Writing(capacity, frames)
    }

    // -------------------------------------------------------------------------------------------
    // Bytes

    method Break()
      requires Shape()
      modifies this`broken, this`size
      ensures Shape() && broken
    {
      broken, size := true, 0;
    }

    method WriteFirstByte(value: byte)
      requires Shape()
      modifies this`broken, this`pos, this`size, this`records, buffer
      ensures Shape()
      ensures broken <==> old(broken) || old(size) == 0
      ensures !broken ==> buffer[..pos] == old(buffer[..pos]) + [value]
      ensures !broken ==> records == Incremented(old(records), depth)
    {
      if size == 0 {
        Break();
        return;
      }
      buffer[pos] := value;
      pos, size := pos + 1, size - 1;
      records := Incremented(records, depth);
    }

    /** `write_object` */
    method WriteBytes(data: seq<byte>)
      requires Shape()
      modifies this`broken, this`pos, this`size, buffer
      ensures Shape()
      ensures broken <==> old(broken) || old(size) < |data|
      ensures !broken ==> buffer[..pos] == old(buffer[..pos]) + data
    {
      if data == [] {
        return;
      }
      if size < |data| {
        Break();
        return;
      }
      for i := 0 to |data|
        modifies buffer
        invariant buffer[..pos + i] == old(buffer[..pos]) + data[..i]
      {
        buffer[pos + i] := data[i];
      }
      pos, size := pos + |data|, size - |data|;
    }

    /** `memmove` towards higher addresses. */
    method MoveUp(source: nat, n: nat, distance: nat)
      requires source + n + distance <= buffer.Length
      modifies buffer
      ensures buffer[source + distance..source + distance + n] == old(buffer[source..source + n])
      ensures buffer[..source] == old(buffer[..source])
    {
      ghost var was := buffer[..];
      var k: nat := n;
      while k > 0
        invariant k <= n
        invariant forall j :: source + k <= j < source + n ==> buffer[j + distance] == was[j]
        invariant forall j :: 0 <= j < source + k ==> buffer[j] == was[j]
      {
        k := k - 1;
        buffer[source + k + distance] := buffer[source + k];
      }
      ghost var up, down := buffer[source + distance..source + distance + n], was[source..source + n];
      forall j | 0 <= j < n
        ensures up[j] == down[j]
      {
        assert buffer[source + j + distance] == was[source + j];
      }
      assert up == down;
    }

    /** The loop that stores `value` in `n` bytes, least significant byte last. */
    method Serialize(start: nat, n: nat, value: nat)
      requires start + n <= buffer.Length
      modifies buffer
      ensures buffer[start..start + n] == BigEndian(value, n)
      ensures buffer[..start] == old(buffer[..start]) && buffer[start + n..] == old(buffer[start + n..])
    {
      var k: nat, v: nat := n, value;
      while k > 0
        invariant k <= n
        invariant BigEndian(v, k) + buffer[start + k..start + n] == BigEndian(value, n)
        invariant buffer[..start] == old(buffer[..start]) && buffer[start + n..] == old(buffer[start + n..])
      {
        k := k - 1;
        buffer[start + k] := (v % 256) as byte;
        v := v / 256;
      }
    }

    /** The part of the buffer from `destination` on makes way for the bytes of `value`. */
    method Insert(destination: nat, length: nat, value: nat)
      requires destination <= pos && pos + length <= buffer.Length
      modifies buffer
      ensures buffer[..pos + length] ==
        old(buffer[..destination]) + BigEndian(value, length) + old(buffer[destination..pos])
    {
      hide BigEndian;
      ghost var was := buffer[..];
      MoveUp(destination, pos - destination, length);
      ghost var moved := buffer[..];
      Serialize(destination, length, value);
      Inserted(was, moved, buffer[..], destination, pos, BigEndian(value, length));
    }

    /** `insert_unsigned`: the argument of a head goes behind its initial byte, which ends at
        `destination`; what follows is moved out of the way. */
    method InsertUnsigned(destination: nat, value: nat)
      requires Shape() && (!broken ==> 0 < destination <= pos)
      modifies this`broken, this`pos, this`size, buffer
      ensures Shape()
      ensures broken <==> old(broken) || old(size) < ArgumentSize(value)
      ensures !broken ==>
        buffer[..pos] ==
        old(buffer[..destination - 1]) + Head(old(buffer[destination - 1]), value) + old(buffer[destination..pos])
    {
      hide Head, BigEndian, ArgumentSize, Tagged;
      if broken {
        return;
      }
      HeadParts(buffer[destination - 1], value);
      ghost var was := buffer[..];
      buffer[destination - 1] := Tagged(buffer[destination - 1], value);
      WithFirstByte(was, buffer[destination - 1], destination, pos, BigEndian(value, ArgumentSize(value)));
      if value < 24 {
        return;
      }
      var length := ArgumentSize(value);
      if size < length {
        Break();
        return;
      }
      Insert(destination, length, value);
      pos, size := pos + length, size - length;
    }

    /** A first byte, and at once its argument behind it. */
    method WriteHead(major: byte, value: nat)
      requires Shape()
      modifies this`broken, this`pos, this`size, this`records, buffer
      ensures Shape()
      ensures broken <==> old(broken) || old(size) < |Head(major, value)|
      ensures !broken ==> buffer[..pos] == old(buffer[..pos]) + Head(major, value)
      ensures !broken ==> records == Incremented(old(records), depth)
    {
      WriteFirstByte(major);
      InsertUnsigned(pos, value);
    }

    // -------------------------------------------------------------------------------------------
    // Objects

    /** How long the output gets when bytes are added to the innermost container. */
    lemma LengthAfter(bytes: seq<byte>)
      requires Valid()
      ensures !broken ==> |frames| > 0 && |Flatten(Extended(frames, bytes, 1))| == pos + |bytes|
    {
      hide Flatten, Extended;
      if !broken {
        FlattenExtended(frames, bytes, 1);
      }
    }

    /** Bookkeeping: the innermost container has gained an object of the given bytes. */
    ghost method Account(bytes: seq<byte>, was: seq<Record>)
      requires Shape() && |was| == MAX_NESTING
      requires !broken ==> |frames| == MAX_NESTING + 1 - depth && RecordsMatch(frames, was)
      requires !broken ==> buffer[..pos] == Flatten(frames) + bytes && records == Incremented(was, depth)
      modifies this`frames
      ensures Valid()
      ensures !broken ==> frames == Extended(old(frames), bytes, 1)
    {
      hide Flatten, Extended;
      if !broken {
        FlattenExtended(frames, bytes, 1);
        ExtendedRecords(frames, was, bytes);
        frames := Extended(frames, bytes, 1);
      }
    }

    /** `cbor_write_unsigned` */
    method WriteUnsigned(value: nat)
      requires Valid()
      modifies this, buffer
      ensures Valid() && State() == Step(old(State()), Call.WriteUnsigned(value))
    {
      hide Flatten, Extended, Head;
      LengthAfter(Head(UNSIGNED, value));
      WriteHead(UNSIGNED, value);
      Account(Head(UNSIGNED, value), old(records));
    }

    /** `cbor_write_signed` */
    method WriteSigned(value: int)
      requires Valid() && -TWO_TO_THE_63 <= value < TWO_TO_THE_63
      modifies this, buffer
      ensures Valid() && State() == Step(old(State()), Call.WriteSigned(value))
    {
      hide Flatten, Extended, Head;
      if value >= 0 {
        WriteUnsigned(value);
      } else {
        LengthAfter(Head(SIGNED, -1 - value));
        WriteHead(SIGNED, -1 - value);
        Account(Head(SIGNED, -1 - value), old(records));
      }
    }

    /** `cbor_write_data` and `cbor_write_text` differ in the major type. */
    method WriteString(major: byte, data: seq<byte>)
      requires Valid()
      modifies this, buffer
      ensures Valid() && State() == Emit(old(State()), Head(major, |data|) + data)
    {
      hide Flatten, Extended, Head;
      LengthAfter(Head(major, |data|) + data);
      WriteHead(major, |data|);
      WriteBytes(data);
      if !broken {
        Associative(Flatten(frames), Head(major, |data|), data);
      }
      Account(Head(major, |data|) + data, old(records));
    }

    method WriteData(data: seq<byte>)
      requires Valid()
      modifies this, buffer
      ensures Valid() && State() == Step(old(State()), Call.WriteData(data))
    {
      hide Flatten, Extended, Head;
      WriteString(BYTE_STRING, data);
    }

    method WriteText(text: seq<byte>)
      requires Valid()
      modifies this, buffer
      ensures Valid() && State() == Step(old(State()), Call.WriteText(text))
    {
      hide Flatten, Extended, Head;
      WriteString(TEXT_STRING, text);
    }

    /** The one-byte simple values. */
    method WriteSimple(value: byte)
      requires Valid()
      modifies this, buffer
      ensures Valid() && State() == Emit(old(State()), [value])
    {
      hide Flatten, Extended;
      LengthAfter([value]);
      WriteFirstByte(value);
      Account([value], old(records));
    }

    method WriteNull()
      requires Valid()
      modifies this, buffer
      ensures Valid() && State() == Step(old(State()), Call.WriteNull)
    {
      hide Flatten, Extended, Head;
      WriteSimple(SIMPLE_NULL);
    }

    method WriteUndefined()
      requires Valid()
      modifies this, buffer
      ensures Valid() && State() == Step(old(State()), Call.WriteUndefined)
    {
      hide Flatten, Extended, Head;
      WriteSimple(SIMPLE_UNDEFINED);
    }

    method WriteBool(boolean: bool)
      requires Valid()
      modifies this, buffer
      ensures Valid() && State() == Step(old(State()), Call.WriteBool(boolean))
    {
      hide Flatten, Extended, Head;
      WriteSimple(if boolean then SIMPLE_TRUE else SIMPLE_FALSE);
    }

    /** `cbor_write_object` */
    method WriteObject(object_: seq<byte>)
      requires Valid()
      modifies this, buffer
      ensures Valid() && State() == Step(old(State()), Call.WriteObject(object_))
    {
      hide Flatten, Extended;
      if object_ == [] {
        return;
      }
      LengthAfter(object_);
      WriteBytes(object_);
      records := Incremented(records, depth);
      Account(object_, old(records));
    }

    // -------------------------------------------------------------------------------------------
    // Containers

    /** `generic_open` */
    method Open(first: byte)
      requires Valid()
      modifies this, buffer
      ensures Valid() && State() == CborWriting.Open(old(State()), first)
    {
      hide Flatten, Extended;
      if depth == 0 {
        Break();
        return;
      }
      if !broken {
        OpenedFrames(frames, first);
      }
      WriteFirstByte(first);
      depth := depth - 1;
      if !broken {
        ghost var outer := Extended(frames, [], 1);
        FlattenExtended(frames, [], 1);
        ExtendedRecords(frames, old(records), []);
        OpenedRecords(outer, records, first);
        frames := outer + [Frame(first, [], 0)];
      }
      records := records[depth := Record(pos, 0)];
    }

    /** `generic_close` */
    method Close(value: nat)
      requires Valid() && depth < MAX_NESTING
      modifies this, buffer
      ensures Valid()
      ensures State() == if old(broken) then Broken else CborWriting.Close(old(State()), value)
    {
      hide Flatten, Extended, Head, RecordsMatch;
      if !broken {
        TopOfBuffer(frames);
        InnermostRecord(frames, records);
        ghost var n := |frames| - 1;
        ghost var top := frames[n];
        FlattenExtended(frames[..n], Head(top.first, value) + top.content, 0);
        ClosedRecords(frames, records, Head(top.first, value) + top.content);
        ghost var d := records[depth].start;
        assert buffer[..d - 1] == buffer[..pos][..d - 1] && buffer[d..pos] == buffer[..pos][d..];
        assert buffer[d - 1] == buffer[..pos][d - 1];
        Associative(Flatten(frames[..n]), Head(top.first, value), top.content);
        frames := Extended(frames[..n], Head(top.first, value) + top.content, 0);
      }
      InsertUnsigned(records[depth].start, value);
      depth := depth + 1;
    }

    method OpenData()
      requires Valid()
      modifies this, buffer
      ensures Valid() && State() == Step(old(State()), Call.OpenData)
    {
      hide Flatten, Extended, Head;
      Open(BYTE_STRING);
    }

    method OpenArray()
      requires Valid()
      modifies this, buffer
      ensures Valid() && State() == Step(old(State()), Call.OpenArray)
    {
      hide Flatten, Extended, Head;
      Open(ARRAY);
    }

    method OpenMap()
      requires Valid()
      modifies this, buffer
      ensures Valid() && State() == Step(old(State()), Call.OpenMap)
    {
      hide Flatten, Extended, Head;
      Open(MAP);
    }

    /** The length of a broken writer's data is a difference of pointers that is never used. */
    method CloseData()
      requires Valid()
      modifies this, buffer
      ensures Valid() && State() == Step(old(State()), Call.CloseData)
    {
      hide Flatten, Extended, Head;
      if depth == MAX_NESTING {
        Break();
        return;
      }
      if !broken {
        TopOfBuffer(frames);
      }
      Close(if broken then 0 else pos - records[depth].start);
    }

    method CloseArray()
      requires Valid()
      modifies this, buffer
      ensures Valid() && State() == Step(old(State()), Call.CloseArray)
    {
      hide Flatten, Extended, Head;
      if depth == MAX_NESTING {
        Break();
        return;
      }
      Close(records[depth].objects);
    }

    method CloseMap()
      requires Valid()
      modifies this, buffer
      ensures Valid() && State() == Step(old(State()), Call.CloseMap)
    {
      hide Flatten, Extended, Head;
      if depth == MAX_NESTING || records[depth].objects % 2 == 1 {
        Break();
        return;
      }
      Close(records[depth].objects / 2);
    }

    // -------------------------------------------------------------------------------------------
    // Whole sessions

    /** `cbor_init_writer` */
    constructor (buffer: array<byte>, size: nat)
      requires size <= buffer.Length
      ensures Valid() && State() == Init(size) && this.buffer == buffer
    {
      this.buffer := buffer;
      capacity, this.size, pos, broken := size, size, 0, false;
      depth := MAX_NESTING;
      records := seq(MAX_NESTING, _ => Record(0, 0));
      frames := [Frame(0, [], 0)];
    }

    /** `cbor_end_writer` */
    method EndWriter() returns (length: nat)
      requires Valid()
      ensures length == End(State())
    {
      length := if depth == MAX_NESTING && !broken then pos else 0;
    }

    method Perform(call: Call)
      requires Valid() && IsCall(call)
      modifies this, buffer
      ensures Valid() && State() == Step(old(State()), call)
    {
      hide Flatten, Extended, Head;
      match call {
        case WriteUnsigned(u) => WriteUnsigned(u);
        case WriteSigned(i) => WriteSigned(i);
        case WriteData(s) => WriteData(s);
        case WriteText(s) => WriteText(s);
        case WriteNull => WriteNull();
        case WriteUndefined => WriteUndefined();
        case WriteBool(b) => WriteBool(b);
        case WriteObject(o) => WriteObject(o);
        case OpenData => OpenData();
        case CloseData => CloseData();
        case OpenArray => OpenArray();
        case CloseArray => CloseArray();
        case OpenMap => OpenMap();
        case CloseMap => CloseMap();
      }
    }
  }

  /** Calls on a new writer, and the length that it reports. */
  method PerformAll(calls: seq<Call>, buffer: array<byte>, size: nat) returns (length: nat)
    requires AreCalls(calls) && size <= buffer.Length
    modifies buffer
    ensures var w := Run(Init(size), calls);
            && length == End(w)
            && (w.Writing? && |w.frames| == 1 ==> length <= buffer.Length && buffer[..length] == Flatten(w.frames))
  {
    hide Extended, Head, Run;
    var writer := new Writer(buffer, size);
    RunPrefixes(Init(size), calls);
    for i := 0 to |calls|
      invariant writer.Valid() && writer.buffer == buffer && fresh(writer)
      invariant writer.State() == Run(Init(size), calls[..i])
    {
      writer.Perform(calls[i]);
    }
    assert calls[..|calls|] == calls;
    length := writer.EndWriter();
  }

  /** A whole session: the buffer ends up holding exactly the encoding of the items, or the length 0
      says that they did not fit or nested too deeply. */
  method WriteSession(items: seq<Item>, buffer: array<byte>, size: nat) returns (length: nat)
    requires AllWellFormed(items) && size <= buffer.Length
    modifies buffer
    ensures MaxDepth(items) <= MAX_NESTING && |EncodeAll(items)| <= size ==>
      length == |EncodeAll(items)| && buffer[..length] == EncodeAll(items)
    ensures MaxDepth(items) > MAX_NESTING || |EncodeAll(items)| > size ==> length == 0
  {
    hide EncodeAll, AllCalls, Run;
    AllCallsAreCalls(items);
    length := PerformAll(AllCalls(items), buffer, size);
    if MaxDepth(items) <= MAX_NESTING {
      ItemsAreEncoded(size, items);
    } else {
      SomeTooDeep(Init(size), items);
    }
  }
}
