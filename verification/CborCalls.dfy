/** Balanced sequences of calls to the CBOR writer: each of them writes some items. */
module CborCalls {
  import opened ByteStrings
  import opened Common
  import opened CborEncoding
  import opened CborWriting
  import CborWriter

  /** A container that is open: the call that closes it, and the items that are complete in it. */
  datatype Level = Level(close: Call, items: seq<Item>)

  /** The arguments fit their C types. */
  predicate InRange(call: Call) {
    IsCall(call) && (call.WriteUnsigned? ==> call.u < TWO_TO_THE_64)
  }

  predicate AllInRange(calls: seq<Call>) {
    forall i :: 0 <= i < |calls| ==> InRange(calls[i])
  }

  function WithItem(levels: seq<Level>, item: Item): (r: seq<Level>)
    requires |levels| > 0
    ensures |r| == |levels|
  {
    var n := |levels| - 1;
    levels[..n] + [levels[n].(items := levels[n].items + [item])]
  }

  predicate IsOpening(call: Call) {
    call.OpenData? || call.OpenArray? || call.OpenMap?
  }

  predicate IsClosing(call: Call) {
    call.CloseData? || call.CloseArray? || call.CloseMap?
  }

  function Closing(open: Call): Call {
    match open
    case OpenArray => CloseArray
    case OpenMap => CloseMap
    case _ => CloseData
  }

  /** The item that a call writes by itself. */
  function Leaf(call: Call): Item {
    match call
    case WriteUnsigned(u) => Int(u)
    case WriteSigned(i) => Int(i)
    case WriteData(s) => Bytes(s)
    case WriteText(s) => Text(s)
    case WriteNull => Null
    case WriteBool(b) => Bool(b)
    case WriteObject(o) => Encoded(o)
    case _ => Undefined
  }

  /** The container that a call closes, as an item. */
  function Container(close: Call, items: seq<Item>): Item {
    match close
    case CloseArray => Array(items)
    case CloseMap => Map(items)
    case _ => Wrapped(items)
  }

  /** The open containers after a call, or none if the call closes a container that it did not open, or a map
      with a key that has no value. */
  function AfterCall(levels: seq<Level>, call: Call): (r: Option<seq<Level>>)
    requires |levels| > 0
    ensures r.Some? ==> |r.value| > 0
  {
    var n := |levels| - 1;
    var items := levels[n].items;
    if IsOpening(call) then Some(levels + [Level(Closing(call), [])])
    else if IsClosing(call) then
      if n == 0 || levels[n].close != call || (call == CloseMap && |items| % 2 == 1) then None
      else Some(WithItem(levels[..n], Container(call, items)))
    else if call == WriteObject([]) then Some(levels)
    else Some(WithItem(levels, Leaf(call)))
  }

  function Levels(calls: seq<Call>): (r: Option<seq<Level>>)
    ensures r.Some? ==> |r.value| > 0
  {
    if calls == [] then Some([Level(CloseData, [])])
    else
      var before := Levels(calls[..|calls| - 1]);
      if before.None? then None else AfterCall(before.value, calls[|calls| - 1])
  }

  /** Every container is closed by its own kind of call, and none is left open. */
  predicate Balanced(calls: seq<Call>) {
    Levels(calls).Some? && |Levels(calls).value| == 1
  }

  function ItemsOf(calls: seq<Call>): (items: seq<Item>)
    requires AllInRange(calls) && Balanced(calls)
    ensures AllWellFormed(items)
  {
    CallsAreWritten(calls);
    Levels(calls).value[0].items
  }

  // ---------------------------------------------------------------------------------------------
  // Calls that do the same

  /** A signed value that is not negative is written like an unsigned one, and an object without bytes is not
      written at all. */
  function Plain(call: Call): seq<Call> {
    match call
    case WriteSigned(i) => if i >= 0 then [WriteUnsigned(i)] else [call]
    case WriteObject(o) => if o == [] then [] else [call]
    case _ => [call]
  }

  function AllPlain(calls: seq<Call>): seq<Call> {
    if calls == [] then [] else AllPlain(calls[..|calls| - 1]) + Plain(calls[|calls| - 1])
  }

  lemma {:induction false} PlainCallsDoTheSame(w: Writer, calls: seq<Call>)
    requires AreCalls(calls) && (w.Writing? ==> |w.frames| > 0)
    ensures AreCalls(AllPlain(calls)) && Run(w, AllPlain(calls)) == Run(w, calls)
    decreases |calls|
  {
    hide Run;
    if calls != [] {
      var n := |calls| - 1;
      var front, call := calls[..n], calls[n];
      PlainCallsDoTheSame(w, front);
      RunAppend(w, AllPlain(front), Plain(call));
      RunAppend(w, front, [call]);
      assert calls == front + [call];
      OnePlainCall(Run(w, front), call);
    }
  }

  lemma OnePlainCall(w: Writer, call: Call)
    requires IsCall(call) && (w.Writing? ==> |w.frames| > 0)
    ensures AreCalls(Plain(call)) && Run(w, Plain(call)) == Run(w, [call])
  {
    hide Emit, Head;
    if Plain(call) != [] {
      RunOne(w, Plain(call)[0]);
    }
    RunOne(w, call);
  }

  // ---------------------------------------------------------------------------------------------
  // Balanced calls write items

  function Opening(close: Call): Call {
    match close
    case CloseArray => OpenArray
    case CloseMap => OpenMap
    case _ => OpenData
  }

  ghost predicate LevelsWellFormed(levels: seq<Level>) {
    forall i :: 0 <= i < |levels| ==> AllWellFormed(levels[i].items)
  }

  /** The calls that open these containers and write what is complete in them. */
  function CallsSoFar(levels: seq<Level>): seq<Call>
    requires |levels| > 0 && LevelsWellFormed(levels)
  {
    var n := |levels| - 1;
    if n == 0 then AllCalls(levels[0].items)
    else CallsSoFar(levels[..n]) + [Opening(levels[n].close)] + AllCalls(levels[n].items)
  }

  lemma {:induction false} OneMoreItem(items: seq<Item>, item: Item)
    requires AllWellFormed(items) && WellFormed(item)
    ensures AllWellFormed(items + [item]) && AllCalls(items + [item]) == AllCalls(items) + Calls(item)
  {
    hide Calls, WellFormed, AllWellFormed, AllCalls;
    var longer := items + [item];
    WellFormedParts(longer);
    if items == [] {
      NoCalls();
      assert longer[0] == item && longer[1..] == [];
      assert AllCalls([]) + Calls(item) == Calls(item) + AllCalls([]);
    } else {
      WellFormedParts(items);
      assert longer[0] == items[0] && longer[1..] == items[1..] + [item];
      OneMoreItem(items[1..], item);
      FirstAndOthers(items);
      InThree(Calls(items[0]), AllCalls(items[1..]), Calls(item));
    }
    FirstAndOthers(longer);
  }

  lemma InThree(a: seq<Call>, b: seq<Call>, c: seq<Call>)
    ensures a + (b + c) == a + b + c
  {
  }

  lemma WellFormedParts(items: seq<Item>)
    requires items != []
    ensures AllWellFormed(items) <==> WellFormed(items[0]) && AllWellFormed(items[1..])
  {
  }

  lemma {:induction false} ItemIsWritten(levels: seq<Level>, item: Item)
    requires |levels| > 0 && LevelsWellFormed(levels) && WellFormed(item)
    ensures LevelsWellFormed(WithItem(levels, item))
    ensures CallsSoFar(WithItem(levels, item)) == CallsSoFar(levels) + Calls(item)
  {
    hide Calls, WellFormed, AllCalls, AllWellFormed;
    var n := |levels| - 1;
    OneMoreItem(levels[n].items, item);
    assert WithItem(levels, item)[..n] == levels[..n];
  }

  /** A call goes behind the calls so far. */
  lemma {:induction false} CallIsWritten(levels: seq<Level>, call: Call)
    requires |levels| > 0 && LevelsWellFormed(levels) && InRange(call) && AfterCall(levels, call).Some?
    ensures var after := AfterCall(levels, call).value;
            LevelsWellFormed(after) && CallsSoFar(after) == CallsSoFar(levels) + Plain(call)
  {
    hide AllCalls, WithItem, CallsSoFar, Plain, Calls, WellFormed, Leaf, IsCall;
    PlainCall(call);
    if IsOpening(call) {
      ContainerIsOpened(levels, Closing(call));
    } else if IsClosing(call) {
      ContainerIsClosed(levels, call);
    } else if call == WriteObject([]) {
      assert CallsSoFar(levels) + [] == CallsSoFar(levels);
    } else {
      ItemIsWritten(levels, Leaf(call));
    }
  }

  lemma PlainCall(call: Call)
    requires InRange(call)
    ensures IsOpening(call) || IsClosing(call) ==> Plain(call) == [call]
    ensures IsOpening(call) ==> Opening(Closing(call)) == call
    ensures call == WriteObject([]) ==> Plain(call) == []
    ensures !IsOpening(call) && !IsClosing(call) && call != WriteObject([]) ==>
              WellFormed(Leaf(call)) && Calls(Leaf(call)) == Plain(call)
  {
  }

  lemma {:induction false} ContainerIsClosed(levels: seq<Level>, call: Call)
    requires |levels| > 1 && LevelsWellFormed(levels)
    requires IsClosing(call)
    requires var top := levels[|levels| - 1]; top.close == call && (call == CloseMap ==> |top.items| % 2 == 0)
    ensures var n := |levels| - 1;
            var after := WithItem(levels[..n], Container(call, levels[n].items));
            LevelsWellFormed(after) && CallsSoFar(after) == CallsSoFar(levels) + [call]
  {
    hide AllCalls, WithItem;
    var n := |levels| - 1;
    var items, outer := levels[n].items, levels[..n];
    assert AllWellFormed(items);
    ItemIsWritten(outer, Container(call, items));
  }

  lemma {:induction false} ContainerIsOpened(levels: seq<Level>, close: Call)
    requires |levels| > 0 && LevelsWellFormed(levels)
    ensures var after := levels + [Level(close, [])];
            LevelsWellFormed(after) && CallsSoFar(after) == CallsSoFar(levels) + [Opening(close)]
  {
    hide AllCalls, AllWellFormed;
    var after := levels + [Level(close, [])];
    assert after[..|levels|] == levels;
    NoCalls();
    assert CallsSoFar(levels) + [Opening(close)] + [] == CallsSoFar(levels) + [Opening(close)];
  }

  lemma NoCalls()
    ensures AllWellFormed([]) && AllCalls([]) == []
  {
  }

  lemma {:induction false} CallsAreWritten(calls: seq<Call>)
    requires AllInRange(calls) && Levels(calls).Some?
    ensures LevelsWellFormed(Levels(calls).value) && CallsSoFar(Levels(calls).value) == AllPlain(calls)
    decreases |calls|
  {
    hide Plain, CallsSoFar, AfterCall, LevelsWellFormed;
    if calls == [] {
      NothingWrittenYet();
    } else {
      var n := |calls| - 1;
      CallsAreWritten(calls[..n]);
      CallIsWritten(Levels(calls[..n]).value, calls[n]);
    }
  }

  lemma NothingWrittenYet()
    ensures LevelsWellFormed([Level(CloseData, [])]) && CallsSoFar([Level(CloseData, [])]) == []
  {
  }

  /** A balanced sequence of calls does to a writer what the calls for its items do. */
  lemma {:induction false} BalancedCallsWriteItems(w: Writer, calls: seq<Call>)
    requires AllInRange(calls) && Balanced(calls) && (w.Writing? ==> |w.frames| > 0)
    ensures AreCalls(calls) && AreCalls(AllCalls(ItemsOf(calls)))
    ensures Run(w, calls) == Run(w, AllCalls(ItemsOf(calls)))
  {
    hide Run, Levels, AllCalls, AllPlain;
    CallsAreWritten(calls);
    PlainCallsDoTheSame(w, calls);
  }

  /** Any balanced sequence of calls leaves exactly the encoding of its items, if it fits and no more than eight
      containers are open at once, and is reported as length 0 otherwise. */
  method WriteCalls(calls: seq<Call>, buffer: array<byte>, size: nat) returns (length: nat)
    requires AllInRange(calls) && Balanced(calls) && size <= buffer.Length
    modifies buffer
    ensures var items := ItemsOf(calls);
            if MaxDepth(items) <= MAX_NESTING && |EncodeAll(items)| <= size
            then length == |EncodeAll(items)| && buffer[..length] == EncodeAll(items)
            else length == 0
  {
    hide Run, Levels, AllCalls, EncodeAll;
    BalancedCallsWriteItems(Init(size), calls);
    length := CborWriter.PerformAll(calls, buffer, size);
    if MaxDepth(ItemsOf(calls)) <= MAX_NESTING {
      ItemsAreEncoded(size, ItemsOf(calls));
    } else {
      SomeTooDeep(Init(size), ItemsOf(calls));
    }
  }
}
