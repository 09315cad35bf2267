/** What a sequence of calls to the CBOR writer amounts to.  `Step` says it for one call, on a stack
    that holds the bytes of each open container apart; the class in CborWriter.dfy does the same in
    one buffer.  The theorems say that the calls which write an item leave its encoding. */
module CborWriting {
  import opened ByteStrings
  import opened CborEncoding

  const MAX_NESTING := 8

  datatype Call =
    | WriteUnsigned(u: nat)
    | WriteSigned(i: int)
    | WriteData(data: seq<byte>)
    | WriteText(text: seq<byte>)
    | WriteNull
    | WriteUndefined
    | WriteBool(b: bool)
    | WriteObject(object_: seq<byte>)
    | OpenData
    | CloseData
    | OpenArray
    | CloseArray
    | OpenMap
    | CloseMap

  /** A container under construction: its first byte, whose length bits are still zero, what has been
      written inside, and the number of objects that is. */
  datatype Frame = Frame(first: byte, content: seq<byte>, objects: nat)

  /** The frames of the open containers, innermost last, above one for what is outside of all. */
  datatype Writer = Broken | Writing(capacity: nat, frames: seq<Frame>)

  function Init(capacity: nat): Writer {
    Writing(capacity, [Frame(0, [], 0)])
  }

  /** The bytes in the buffer. */
  function Flatten(frames: seq<Frame>): seq<byte>
    requires |frames| > 0
  {
    var n := |frames| - 1;
    if n == 0 then frames[0].content
    else Flatten(frames[..n]) + [frames[n].first] + frames[n].content
  }

  /** A frame that gains bytes, which count as so many objects unless it is the outermost. */
  function Extended(frames: seq<Frame>, bytes: seq<byte>, objects: nat): (r: seq<Frame>)
    requires |frames| > 0
    ensures |r| == |frames|
  {
    var n := |frames| - 1;
    var top := frames[n];
    var counted := if n == 0 then top.objects else top.objects + objects;
    frames[..n] + [top.(content := top.content + bytes, objects := counted)]
  }

  /** The writer goes on if what it has to hold fits, and breaks otherwise. */
  function Checked(capacity: nat, frames: seq<Frame>): Writer
    requires |frames| > 0
  {
    if |Flatten(frames)| <= capacity then Writing(capacity, frames) else Broken
  }

  function Emit(w: Writer, bytes: seq<byte>): Writer
    requires w.Writing? ==> |w.frames| > 0
  {
    if w.Broken? then Broken else Checked(w.capacity, Extended(w.frames, bytes, 1))
  }

  function Open(w: Writer, first: byte): Writer
    requires w.Writing? ==> |w.frames| > 0
  {
    if w.Broken? || |w.frames| > MAX_NESTING then Broken
    else Checked(w.capacity, Extended(w.frames, [], 1) + [Frame(first, [], 0)])
  }

  /** The innermost container is completed by the head that its first byte and `value` make. */
  function Close(w: Writer, value: nat): Writer
    requires w.Writing? && |w.frames| > 1
  {
    var n := |w.frames| - 1;
    var top := w.frames[n];
    Checked(w.capacity, Extended(w.frames[..n], Head(top.first, value) + top.content, 0))
  }

  function Step(w: Writer, call: Call): (r: Writer)
    requires w.Writing? ==> |w.frames| > 0
    requires call.WriteSigned? ==> -TWO_TO_THE_63 <= call.i < TWO_TO_THE_63
    ensures r.Writing? ==> |r.frames| > 0 && w.Writing? && r.capacity == w.capacity
  {
    if w.Broken? then Broken else
    var top := w.frames[|w.frames| - 1];
    var inside := |w.frames| > 1;
    match call
    case WriteUnsigned(u) => Emit(w, Head(UNSIGNED, u))
    case WriteSigned(i) => Emit(w, if i >= 0 then Head(UNSIGNED, i) else Head(SIGNED, -1 - i))
    case WriteData(s) => Emit(w, Head(BYTE_STRING, |s|) + s)
    case WriteText(s) => Emit(w, Head(TEXT_STRING, |s|) + s)
    case WriteNull => Emit(w, [SIMPLE_NULL])
    case WriteUndefined => Emit(w, [SIMPLE_UNDEFINED])
    case WriteBool(b) => Emit(w, [if b then SIMPLE_TRUE else SIMPLE_FALSE])
    case WriteObject(o) => if o == [] then w else Emit(w, o)
    case OpenData => Open(w, BYTE_STRING)
    case OpenArray => Open(w, ARRAY)
    case OpenMap => Open(w, MAP)
    case CloseData => if inside then Close(w, |top.content|) else Broken
    case CloseArray => if inside then Close(w, top.objects) else Broken
    case CloseMap => if inside && top.objects % 2 == 0 then Close(w, top.objects / 2) else Broken
  }

  predicate IsCall(call: Call) {
    call.WriteSigned? ==> -TWO_TO_THE_63 <= call.i < TWO_TO_THE_63
  }

  ghost predicate AreCalls(calls: seq<Call>) {
    forall i :: 0 <= i < |calls| ==> IsCall(calls[i])
  }

  ghost function Run(w: Writer, calls: seq<Call>): (r: Writer)
    requires w.Writing? ==> |w.frames| > 0
    requires AreCalls(calls)
    ensures r.Writing? ==> |r.frames| > 0
    decreases |calls|
  {
    if calls == [] then w else Run(Step(w, calls[0]), calls[1..])
  }

  // ---------------------------------------------------------------------------------------------
  // Writing items

  /** The calls that write an item. */
  function Calls(item: Item): seq<Call>
    requires WellFormed(item)
  {
    match item
    case Int(v) => [if v >= 0 then WriteUnsigned(v) else WriteSigned(v)]
    case Bytes(s) => [WriteData(s)]
    case Text(s) => [WriteText(s)]
    case Null => [WriteNull]
    case Undefined => [WriteUndefined]
    case Bool(b) => [WriteBool(b)]
    case Array(items) => [OpenArray] + AllCalls(items) + [CloseArray]
    case Map(entries) => [OpenMap] + AllCalls(entries) + [CloseMap]
    case Wrapped(items) => [OpenData] + AllCalls(items) + [CloseData]
    case Encoded(bytes) => [WriteObject(bytes)]
  }

  function AllCalls(items: seq<Item>): seq<Call>
    requires AllWellFormed(items)
  {
    if items == [] then [] else Calls(items[0]) + AllCalls(items[1..])
  }

  lemma {:induction false} CallsAreCalls(item: Item)
    requires WellFormed(item)
    ensures AreCalls(Calls(item))
  {
    match item
    case Array(items) => AllCallsAreCalls(items);
    case Map(entries) => AllCallsAreCalls(entries);
    case Wrapped(items) => AllCallsAreCalls(items);
    case _ =>
  }

  lemma {:induction false} AllCallsAreCalls(items: seq<Item>)
    requires AllWellFormed(items)
    ensures AreCalls(AllCalls(items))
  {
    if items != [] {
      CallsAreCalls(items[0]);
      AllCallsAreCalls(items[1..]);
    }
  }

  /** A broken writer stays broken, whatever is asked of it. */
  lemma {:induction false} BrokenStaysBroken(calls: seq<Call>)
    requires AreCalls(calls)
    ensures Run(Broken, calls) == Broken
  {
    if calls != [] {
      BrokenStaysBroken(calls[1..]);
    }
  }

  lemma {:induction false} RunAppend(w: Writer, a: seq<Call>, b: seq<Call>)
    requires w.Writing? ==> |w.frames| > 0
    requires AreCalls(a) && AreCalls(b)
    ensures AreCalls(a + b) && Run(w, a + b) == Run(Run(w, a), b)
    decreases |a|
  {
    if a == [] {
      assert a + b == b;
    } else {
      assert (a + b)[0] == a[0] && (a + b)[1..] == a[1..] + b;
      RunAppend(Step(w, a[0]), a[1..], b);
    }
  }

  lemma FlattenExtended(frames: seq<Frame>, bytes: seq<byte>, objects: nat)
    requires |frames| > 0
    ensures Flatten(Extended(frames, bytes, objects)) == Flatten(frames) + bytes
  {
    var n := |frames| - 1;
    var r := Extended(frames, bytes, objects);
    assert r[..n] == frames[..n] && r[n].content == frames[n].content + bytes && r[n].first == frames[n].first;
    if n > 0 {
      Associative(Flatten(frames[..n]) + [frames[n].first], frames[n].content, bytes);
    }
  }

  lemma Associative(a: seq<byte>, b: seq<byte>, c: seq<byte>)
    ensures a + (b + c) == a + b + c
  {
  }

  lemma ExtendedTwice(frames: seq<Frame>, b1: seq<byte>, n1: nat, b2: seq<byte>, n2: nat)
    requires |frames| > 0
    ensures Extended(Extended(frames, b1, n1), b2, n2) == Extended(frames, b1 + b2, n1 + n2)
  {
    var n := |frames| - 1;
    assert Extended(frames, b1, n1)[..n] == frames[..n];
    assert frames[n].content + b1 + b2 == frames[n].content + (b1 + b2);
  }

  lemma ExtendedByNothing(frames: seq<Frame>)
    requires |frames| > 0
    ensures Extended(frames, [], 0) == frames
  {
    var n := |frames| - 1;
    assert frames[n].content + [] == frames[n].content;
    assert frames == frames[..n] + [frames[n]];
  }

  /** Where a writer should be once `bytes` have been added to its innermost container. */
  function Expected(w: Writer, bytes: seq<byte>, objects: nat): (r: Writer)
    requires w.Writing? ==> |w.frames| > 0
    ensures r.Writing? ==> w.Writing? && |r.frames| == |w.frames|
  {
    if w.Broken? then Broken else Checked(w.capacity, Extended(w.frames, bytes, objects))
  }

  /** A writer that holds no more than its buffer does and has `depth` nesting levels left. */
  ghost predicate Ready(w: Writer, depth: nat) {
    w.Writing? ==> 0 < |w.frames| && |w.frames| + depth <= MAX_NESTING + 1 && |Flatten(w.frames)| <= w.capacity
  }

  lemma {:induction false} WriteItem(w: Writer, item: Item)
    requires WellFormed(item) && Ready(w, Depth(item))
    ensures AreCalls(Calls(item)) && Run(w, Calls(item)) == Expected(w, Encode(item), 1)
    decreases item, 1
  {
    hide Flatten, Extended, Head, Run, EncodeAll, AllCalls;
    CallsAreCalls(item);
    match item
    case Array(items) => WriteContainer(w, OpenArray, CloseArray, ARRAY, |items|, items);
    case Map(entries) => WriteContainer(w, OpenMap, CloseMap, MAP, |entries| / 2, entries);
    case Wrapped(items) => WriteContainer(w, OpenData, CloseData, BYTE_STRING, |EncodeAll(items)|, items);
    case _ =>
      RunOne(w, Calls(item)[0]);
  }

  lemma RunOne(w: Writer, call: Call)
    requires w.Writing? ==> |w.frames| > 0
    requires IsCall(call)
    ensures Run(w, [call]) == Step(w, call)
  {
    assert Run(Step(w, call), []) == Step(w, call);
  }

  lemma {:induction false} WriteItems(w: Writer, items: seq<Item>)
    requires AllWellFormed(items) && Ready(w, MaxDepth(items))
    ensures AreCalls(AllCalls(items)) && Run(w, AllCalls(items)) == Expected(w, EncodeAll(items), |items|)
    decreases items, 0
  {
    hide Flatten, Extended, Run, Encode, EncodeAll, Calls, AllCalls;
    AllCallsAreCalls(items);
    if items == [] {
      NothingWritten(w);
      if w.Writing? {
        ExtendedByNothing(w.frames);
      }
    } else {
      var e1, e2 := Encode(items[0]), EncodeAll(items[1..]);
      FirstAndOthers(items);
      CallsAreCalls(items[0]);
      AllCallsAreCalls(items[1..]);
      WriteItem(w, items[0]);
      RunAppend(w, Calls(items[0]), AllCalls(items[1..]));
      WriteItems(Expected(w, e1, 1), items[1..]);
      ExpectedTwice(w, e1, 1, e2, |items| - 1);
    }
  }

  lemma NothingWritten(w: Writer)
    requires w.Writing? ==> |w.frames| > 0
    ensures EncodeAll([]) == [] && AllCalls([]) == [] && Run(w, []) == w
  {
  }

  lemma FirstAndOthers(items: seq<Item>)
    requires AllWellFormed(items) && items != []
    ensures EncodeAll(items) == Encode(items[0]) + EncodeAll(items[1..])
    ensures AllCalls(items) == Calls(items[0]) + AllCalls(items[1..])
    ensures MaxDepth(items) >= Depth(items[0]) && MaxDepth(items) >= MaxDepth(items[1..])
  {
    hide Encode, Calls;
  }

  lemma ExpectedTwice(w: Writer, b1: seq<byte>, n1: nat, b2: seq<byte>, n2: nat)
    requires w.Writing? ==> |w.frames| > 0
    ensures Expected(Expected(w, b1, n1), b2, n2) == Expected(w, b1 + b2, n1 + n2)
  {
    if w.Writing? {
      FlattenExtended(w.frames, b1, n1);
      FlattenExtended(w.frames, b1 + b2, n1 + n2);
      ExtendedTwice(w.frames, b1, n1, b2, n2);
    }
  }

  /** How each kind of container is opened and closed, and the argument that its head gets. */
  ghost predicate Brackets(open: Call, close: Call, first: byte, value: nat, items: seq<Item>)
    requires AllWellFormed(items)
  {
    || (open == OpenArray && close == CloseArray && first == ARRAY && value == |items|)
    || (open == OpenMap && close == CloseMap && first == MAP && |items| % 2 == 0 && value == |items| / 2)
    || (open == OpenData && close == CloseData && first == BYTE_STRING && value == |EncodeAll(items)|)
  }

  lemma {:induction false} WriteContainer(w: Writer, open: Call, close: Call, first: byte, value: nat, items: seq<Item>)
    requires AllWellFormed(items) && Ready(w, 1 + MaxDepth(items))
    requires Brackets(open, close, first, value, items)
    ensures AreCalls([open] + AllCalls(items) + [close])
    ensures Run(w, [open] + AllCalls(items) + [close]) == Expected(w, Head(first, value) + EncodeAll(items), 1)
    decreases items, 1
  {
    hide Flatten, Extended, Head, AllCalls, EncodeAll, Run, Step, Expected, Brackets, Ready;
    AllCallsAreCalls(items);
    var calls := AllCalls(items);
    BracketsAreCalls(open, close, first, value, items);
    ContainerStarts(w, open, close, first, value, items);
    RunAppend(w, [open], calls);
    RunAppend(w, [open] + calls, [close]);
    RunOne(w, open);
    var w1 := Step(w, open);
    WriteItems(w1, items);
    RunOne(Run(w1, calls), close);
    ContainerEnds(w, open, close, first, value, items);
  }

  lemma BracketsAreCalls(open: Call, close: Call, first: byte, value: nat, items: seq<Item>)
    requires AllWellFormed(items) && Brackets(open, close, first, value, items)
    ensures AreCalls([open]) && AreCalls([close]) && IsCall(open) && IsCall(close)
  {
  }

  lemma ContainerStarts(w: Writer, open: Call, close: Call, first: byte, value: nat, items: seq<Item>)
    requires AllWellFormed(items) && Ready(w, 1 + MaxDepth(items)) && IsCall(open)
    requires Brackets(open, close, first, value, items)
    ensures w.Writing? ==> |w.frames| > 0
    ensures Ready(Step(w, open), MaxDepth(items)) && Step(w, open) == Open(w, first)
  {
    hide Flatten, EncodeAll, Extended;
  }

  lemma ContainerEnds(w: Writer, open: Call, close: Call, first: byte, value: nat, items: seq<Item>)
    requires AllWellFormed(items) && Ready(w, 1 + MaxDepth(items)) && IsCall(close)
    requires Brackets(open, close, first, value, items)
    ensures w.Writing? ==> |w.frames| > 0
    ensures var w2 := Expected(Open(w, first), EncodeAll(items), |items|);
            && (w2.Writing? ==> |w2.frames| > 0)
            && Step(w2, close) == Expected(w, Head(first, value) + EncodeAll(items), 1)
  {
    hide Flatten, Extended, Head, EncodeAll;
    if w.Writing? {
      OpenedFrames(w.frames, first);
      if Open(w, first).Broken? {
        FlattenExtended(w.frames, Head(first, value) + EncodeAll(items), 1);
      } else {
        CloseOpened(w, Open(w, first), first, value, items);
      }
    }
  }

  lemma OpenedFrames(frames: seq<Frame>, first: byte)
    requires |frames| > 0
    ensures Flatten(Extended(frames, [], 1) + [Frame(first, [], 0)]) == Flatten(frames) + [first]
  {
    hide Flatten, Extended;
    FlattenExtended(frames, [], 1);
    FlattenInner(Extended(frames, [], 1), Frame(first, [], 0));
    assert Flatten(frames) + [] == Flatten(frames) && Flatten(frames) + [first] + [] == Flatten(frames) + [first];
  }

  lemma FlattenInner(outer: seq<Frame>, inner: Frame)
    requires |outer| > 0
    ensures Flatten(outer + [inner]) == Flatten(outer) + [inner.first] + inner.content
  {
    assert (outer + [inner])[..|outer|] == outer;
  }

  /** Closing puts the head before the contents, as if both had been written at once. */
  lemma CloseOpened(w: Writer, w1: Writer, first: byte, value: nat, items: seq<Item>)
    requires AllWellFormed(items) && w.Writing? && w1.Writing? && |w.frames| > 0
    requires w1 == Open(w, first)
    ensures var w2 := Expected(w1, EncodeAll(items), |items|);
      var w3 := Expected(w, Head(first, value) + EncodeAll(items), 1);
      && (w2.Broken? ==> w3.Broken?)
      && (w2.Writing? ==> |w2.frames| > 1 && Close(w2, value) == w3)
      && (w2.Writing? ==> w2.frames[|w2.frames| - 1] == Frame(first, EncodeAll(items), |items|))
  {
    hide Flatten, Head, EncodeAll;
    var content, n := EncodeAll(items), |w.frames|;
    var outer := Extended(w.frames, [], 1);
    var inner := Extended(w1.frames, content, |items|);
    OpenedFrames(w.frames, first);
    FlattenExtended(w1.frames, content, |items|);
    FlattenExtended(w.frames, Head(first, value) + content, 1);
    ExtendedTwice(w.frames, [], 1, Head(first, value) + content, 0);
    assert w1.frames[..n] == outer && inner[..n] == outer;
    assert [] + content == content && [] + (Head(first, value) + content) == Head(first, value) + content;
    assert inner[n] == Frame(first, content, |items|);
  }

  /** `cbor_end_writer` */
  function End(w: Writer): nat
    requires w.Writing? ==> |w.frames| > 0
  {
    if w.Writing? && |w.frames| == 1 then |w.frames[0].content| else 0
  }

  /** Items that do not nest too deeply are written as their encoding if that fits the buffer; if it
      does not, the writer is broken and reports length 0. */
  lemma ItemsAreEncoded(capacity: nat, items: seq<Item>)
    requires AllWellFormed(items) && MaxDepth(items) <= MAX_NESTING
    ensures AreCalls(AllCalls(items))
    ensures var w := Run(Init(capacity), AllCalls(items));
      if |EncodeAll(items)| <= capacity
      then w.Writing? && Flatten(w.frames) == EncodeAll(items) && End(w) == |EncodeAll(items)|
      else w.Broken? && End(w) == 0
  {
    WriteItems(Init(capacity), items);
    FlattenExtended(Init(capacity).frames, EncodeAll(items), |items|);
  }

  /** Nesting beyond the limit always breaks the writer. */
  lemma {:induction false} TooDeep(w: Writer, item: Item)
    requires WellFormed(item) && Ready(w, 0)
    requires w.Writing? ==> |w.frames| + Depth(item) > MAX_NESTING + 1
    ensures AreCalls(Calls(item)) && Run(w, Calls(item)) == Broken
    decreases item, 1
  {
    CallsAreCalls(item);
    match item
    case Array(items) => TooDeepInside(w, OpenArray, CloseArray, ARRAY, items);
    case Map(entries) => TooDeepInside(w, OpenMap, CloseMap, MAP, entries);
    case Wrapped(items) => TooDeepInside(w, OpenData, CloseData, BYTE_STRING, items);
    case _ => BrokenStaysBroken(Calls(item));
  }

  lemma {:induction false} TooDeepInside(w: Writer, open: Call, close: Call, first: byte, items: seq<Item>)
    requires AllWellFormed(items) && Ready(w, 0) && IsCall(open) && IsCall(close)
    requires w.Writing? ==> |w.frames| + 1 + MaxDepth(items) > MAX_NESTING + 1
    requires Step(w, open) == Open(w, first)
    ensures AreCalls([open] + AllCalls(items) + [close]) && Run(w, [open] + AllCalls(items) + [close]) == Broken
    decreases items, 1
  {
    AllCallsAreCalls(items);
    RunAppend(w, [open], AllCalls(items));
    RunAppend(w, [open] + AllCalls(items), [close]);
    RunOne(w, open);
    var w1 := Step(w, open);
    if w1.Writing? {
      OpenedFrames(w.frames, first);
      SomeTooDeep(w1, items);
    } else {
      BrokenStaysBroken(AllCalls(items));
    }
    BrokenStaysBroken([close]);
  }

  lemma {:induction false} SomeTooDeep(w: Writer, items: seq<Item>)
    requires AllWellFormed(items) && Ready(w, 0)
    requires w.Writing? ==> |w.frames| + MaxDepth(items) > MAX_NESTING + 1
    ensures AreCalls(AllCalls(items)) && Run(w, AllCalls(items)) == Broken
    decreases items, 0
  {
    AllCallsAreCalls(items);
    if w.Broken? {
      BrokenStaysBroken(AllCalls(items));
    } else {
      CallsAreCalls(items[0]);
      AllCallsAreCalls(items[1..]);
      RunAppend(w, Calls(items[0]), AllCalls(items[1..]));
      if |w.frames| + Depth(items[0]) > MAX_NESTING + 1 {
        TooDeep(w, items[0]);
        BrokenStaysBroken(AllCalls(items[1..]));
      } else {
        WriteItem(w, items[0]);
        SomeTooDeep(Expected(w, Encode(items[0]), 1), items[1..]);
      }
    }
  }

  /** A run up to one call further. */
  lemma RunPrefixes(w: Writer, calls: seq<Call>)
    requires w.Writing? ==> |w.frames| > 0
    requires AreCalls(calls)
    ensures Run(w, calls[..0]) == w
    ensures forall i :: 0 <= i < |calls| ==> Run(w, calls[..i + 1]) == Step(Run(w, calls[..i]), calls[i])
  {
    hide Run, Step;
    NothingRun(w);
    assert calls[..0] == [];
    forall i | 0 <= i < |calls|
      ensures Run(w, calls[..i + 1]) == Step(Run(w, calls[..i]), calls[i])
    {
      assert calls[..i + 1] == calls[..i] + [calls[i]];
      RunAppend(w, calls[..i], [calls[i]]);
      RunOne(Run(w, calls[..i]), calls[i]);
    }
  }

  lemma NothingRun(w: Writer)
    requires w.Writing? ==> |w.frames| > 0
    ensures Run(w, []) == w
  {
  }
}
