/** The SLIP driver of os/dev/slip.c: bytes are gathered in a circular buffer by an interrupt handler and
    decoded into an output buffer when the process is polled. */
module Slip {
  import opened ByteStrings
  import opened Common
  import opened SlipCoding

  // ---------------------------------------------------------------------------------------------
  // Circular buffers

  function Slot(from: nat, k: nat, size: nat): (j: nat)
    requires from < size && k <= size
    ensures j < size
  {
    if from + k < size then from + k else from + k - size
  }

  /** `n` bytes of a circular buffer. */
  function Ring(buf: seq<byte>, from: nat, n: nat): (r: seq<byte>)
    requires from < |buf| && n <= |buf|
    ensures |r| == n
  {
    seq(n, k requires 0 <= k < n => buf[Slot(from, k, |buf|)])
  }

  lemma RingsMeet(buf: seq<byte>, from: nat, m: nat, n: nat)
    requires from < |buf| && m + n <= |buf|
    ensures Ring(buf, from, m + n) == Ring(buf, from, m) + Ring(buf, Slot(from, m, |buf|), n)
    ensures Slot(Slot(from, m, |buf|), n, |buf|) == Slot(from, m + n, |buf|)
  {
  }

  /** A byte behind a run of the buffer lengthens the run, and leaves the one before it alone. */
  lemma RingGrows(buf: seq<byte>, from: nat, m: nat, n: nat, c: byte)
    requires from < |buf| && m + n < |buf|
    ensures var mid := Slot(from, m, |buf|);
            var grown := buf[Slot(from, m + n, |buf|) := c];
            && Ring(grown, from, m) == Ring(buf, from, m)
            && Ring(grown, mid, n + 1) == Ring(buf, mid, n) + [c]
  {
  }

  lemma LastOfRing(buf: seq<byte>, from: nat, n: nat)
    requires from < |buf| && n < |buf|
    ensures var r := Ring(buf, from, n + 1);
            Ring(buf, from, n) == r[..n] && Ring(buf, Slot(from, n, |buf|), 1) == r[n..]
  {
  }

  lemma NextFree(from: nat, n: nat, size: nat)
    requires from < size && n < size
    ensures var j := Slot(from, n, size) + 1; Slot(from, n + 1, size) == if j == size then 0 else j
    ensures Slot(from, n + 1, size) == from <==> n + 1 == size
  {
  }

  lemma SlotDiffers(j: nat, k: nat, size: nat)
    requires j < size && k < size
    ensures Slot(j, k, size) == j <==> k == 0
  {
  }

  lemma NextSlot(j: nat, size: nat)
    requires j < size
    ensures Slot(j, 0, size) == Slot(j, size, size) == j && Slot(j, 1, size) == if j + 1 == size then 0 else j + 1
    ensures forall k :: 0 < k < size ==> Slot(j, k, size) != j
  {
  }

  lemma RingAt(buf: seq<byte>, from: nat, n: nat, j: nat)
    requires from < |buf| && j < n <= |buf|
    ensures Ring(buf, from, n)[j] == buf[Slot(from, j, |buf|)]
  {
  }

  lemma NoPacket(buf: seq<byte>, from: nat)
    requires from < |buf|
    ensures Ring(buf, from, 0) == []
  {
  }

  lemma RingInPieces(buf: seq<byte>, from: nat, n: nat)
    requires from < |buf| && 0 < n < |buf|
    ensures var to := Slot(from, n, |buf|);
            Ring(buf, from, n) == if from < to then buf[from..to] else buf[from..] + buf[..to]
  {
  }

  // ---------------------------------------------------------------------------------------------
  // Sending

  /** `slip_write`: the bytes written to the line. */
  method Write(p: seq<byte>) returns (line: seq<byte>)
    requires |p| < 0x1_0000
    ensures line == Frame(p)
  {
    hide Escape;
    line := [END];
    NothingEscaped();
    for i := 0 to |p|
      invariant line == [END] + Escape(p[..i])
    {
      var c := p[i];
      EscapeOneMore(p[..i + 1]);
      assert p[..i + 1][..i] == p[..i];
      if c == END {
        line := line + [ESC];
        c := ESC_END;
      } else if c == ESC {
        line := line + [ESC];
        c := ESC_ESC;
      }
      line := line + [c];
    }
    assert p[..|p|] == p;
    line := line + [END];
  }

  // ---------------------------------------------------------------------------------------------
  // Decoding

  /** The raw bytes behind what the output buffer holds after one of the decoding loops: all of them, or
      none when a byte was left to decode with more than `blen` decoded already. */
  function Kept(done: seq<byte>, span: seq<byte>, blen: nat): seq<byte> {
    var all := done + span;
    if span != [] && |Decode(all[..|all| - 1]).bytes| > blen then [] else all
  }

  /** How many bytes of the output buffer such a loop has stored to when it ends. */
  function Cells(done: seq<byte>, span: seq<byte>, blen: nat): nat {
    Min(|Decode(done + span).bytes|, blen + 1)
  }

  /** What an END that has been added does: it starts a frame, ends one, or is taken away again. */
  function Ended(v: View, c: byte): (View, bool)
    requires v.partial != []
  {
    var n := |v.partial| - 1;
    if c != END then (v, false)
    else if n == 0 then (v.(partial := []), false)
    else if v.packet == [] then (View(v.state, v.partial[..n], v.partial[n..]), true)
    else (v, true)
  }

  lemma EndedIs(v: View, c: byte)
    requires v.partial != []
    ensures var n := |v.partial| - 1;
            Ended(v, c) ==
            if c != END then (v, false)
            else if n == 0 then (View(v.state, v.packet, []), false)
            else if v.packet == [] then (View(v.state, v.partial[..n], v.partial[n..]), true)
            else (v, true)
  {
  }

  lemma AddCharInSteps(v: View, c: byte, size: nat)
    ensures AddChar(v, c, size) ==
      if |v.packet| + |v.partial| + 1 >= size then (View(Rubbish, v.packet, []), false)
      else Ended(v.(partial := v.partial + [c]), c)
  {
  }

  /** Such a loop after `n` bytes. */
  ghost predicate Halfway(done: seq<byte>, span: seq<byte>, n: nat, blen: nat, out: seq<byte>, esc: bool) {
    && n <= |span| && |out| <= blen + 1 && (|out| > blen ==> !esc)
    && Decode(done + span[..n]) == Decoded(out, esc) && Kept(done, span[..n], blen) == done + span[..n]
  }

  // ---------------------------------------------------------------------------------------------
  // Receiving

  class Driver {
    const size: nat           // RX_BUFSIZE
    const rxbuf: array<byte>
    var state: State
    var begin: nat
    var nextFree: nat
    var pktEnd: nat
    ghost var pending: nat    // bytes of the packet that waits
    ghost var gathered: nat   // bytes after it

    ghost predicate Valid()
      reads this
    {
      && rxbuf.Length == size > 1
      && begin < size && pending + gathered < size
      && pktEnd == Slot(begin, pending, size) && nextFree == Slot(begin, pending + gathered, size)
    }

    ghost function AsView(): View
      reads this, rxbuf
      requires Valid()
    {
      View(state, Ring(rxbuf[..], begin, pending), Ring(rxbuf[..], pktEnd, gathered))
    }

    /** `rxbuf_init` */
    constructor (size: nat)
      requires size > 1
      ensures Valid() && this.size == size && fresh(rxbuf)
      ensures AsView() == IDLE
    {
      this.size := size;
      rxbuf := new byte[size](_ => 0);
      begin, nextFree, pktEnd, state := 0, 0, 0, Ok;
      pending, gathered := 0, 0;
    }

    /** `slip_input_byte` */
    method InputByte(c: byte) returns (wake: bool)
      requires Valid()
      modifies this`state, this`nextFree, this`pktEnd, this`pending, this`gathered, rxbuf
      ensures Valid() && (AsView(), wake) == Receive(old(AsView()), c, size)
    {
      hide Ring, AddChar;
      if state == Rubbish {
        if c == END {
          state := Ok;
        }
        return false;
      } else if state == Esc {
        if c != ESC_END && c != ESC_ESC {
          state := Rubbish;
          nextFree, gathered := pktEnd, 0;
          return false;
        }
        state := Ok;
      }
      if c == ESC {
        state := Esc;
      }
      wake := AddCharacter(c);
    }

    /** Its part from `add_char` on. */
    method AddCharacter(c: byte) returns (wake: bool)
      requires Valid()
      modifies this`state, this`nextFree, this`pktEnd, this`pending, this`gathered, rxbuf
      ensures Valid() && (AsView(), wake) == AddChar(old(AsView()), c, size)
    {
      hide Ring, Slot, AddChar, Ended;
      ghost var buf := rxbuf[..];
      RingsMeet(buf, begin, pending, gathered);
      NextSlot(begin, size);
      NextSlot(pktEnd, size);
      NoPacket(buf, nextFree);
      NextFree(begin, pending + gathered, size);
      AddCharInSteps(AsView(), c, size);
      var curEnd := nextFree;
      nextFree := nextFree + 1;
      if nextFree == size {
        nextFree := 0;
      }
      if nextFree == begin {
        state := Rubbish;
        nextFree, gathered := pktEnd, 0;
        return false;
      }
      rxbuf[curEnd] := c;
      gathered := gathered + 1;
      RingGrows(buf, begin, pending, gathered - 1, c);
      assert rxbuf[..] == buf[curEnd := c];
      wake := CheckEnd(c, curEnd);
    }

    /** What it does after the byte is stored. */
    method CheckEnd(c: byte, curEnd: nat) returns (wake: bool)
      requires Valid() && gathered > 0 && curEnd == Slot(pktEnd, gathered - 1, size)
      requires Ring(rxbuf[..], pktEnd, gathered)[gathered - 1] == c
      modifies this`nextFree, this`pktEnd, this`pending, this`gathered
      ensures Valid() && (AsView(), wake) == Ended(old(AsView()), c)
    {
      hide Ring, Slot, Ended;
      ghost var buf, n := rxbuf[..], gathered - 1;
      EndedIs(AsView(), c);
      RingsMeet(buf, begin, pending, gathered);
      RingsMeet(buf, begin, pending, n);
      SlotDiffers(begin, pending, size);
      SlotDiffers(pktEnd, n, size);
      NoPacket(buf, pktEnd);
      LastOfRing(buf, pktEnd, n);
      if c == END {
        if curEnd != pktEnd {
          if begin == pktEnd {
            pktEnd := curEnd;
            pending, gathered := n, 1;
          }
          return true;
        } else {
          nextFree, gathered := curEnd, 0;
        }
      }
      return false;
    }

    /** What the decoding loops do with a byte. */
    method DecodeByte(c: byte, outbuf: array<byte>, len0: nat, esc0: bool) returns (len: nat, esc: bool)
      requires len0 <= outbuf.Length && outbuf != rxbuf
      requires |Continue(Decoded(outbuf[..len0], esc0), c).bytes| <= outbuf.Length
      modifies outbuf
      ensures len0 <= len <= outbuf.Length
      ensures Decoded(outbuf[..len], esc) == Continue(Decoded(old(outbuf[..len0]), esc0), c)
      ensures forall k :: len <= k < outbuf.Length ==> outbuf[k] == old(outbuf[k])
    {
      len, esc := len0, esc0;
      if esc {
        if c == ESC_ESC {
          outbuf[len] := ESC;
          len := len + 1;
        } else if c == ESC_END {
          outbuf[len] := END;
          len := len + 1;
        }
        esc := false;
      } else if c == ESC {
        esc := true;
      } else {
        outbuf[len] := c;
        len := len + 1;
      }
    }

    /** One of the three decoding loops of `slip_poll_handler`, over part of the buffer. */
    method DecodeSpan(from: nat, to: nat, outbuf: array<byte>, blen: nat, len0: nat, esc0: bool, ghost done: seq<byte>)
      returns (len: nat, esc: bool, ghost cells: nat)
      requires Valid() && from <= to <= size && outbuf != rxbuf
      requires Cells(done, rxbuf[from..to], blen) <= outbuf.Length
      requires len0 <= outbuf.Length && Decode(done) == Decoded(outbuf[..len0], esc0)
      requires len0 <= blen + 1 && (len0 > blen ==> !esc0)
      modifies outbuf
      ensures len <= outbuf.Length && len <= blen + 1 && (len > blen ==> !esc)
      ensures Decode(Kept(done, rxbuf[from..to], blen)) == Decoded(outbuf[..len], esc)
      ensures cells == Cells(done, rxbuf[from..to], blen)
      ensures forall k :: cells <= k < outbuf.Length ==> outbuf[k] == old(outbuf[k])
    {
      hide Decode, Continue, Kept, Cells, Halfway;
      len, esc, cells := len0, esc0, len0;
      var i := from;
      ghost var span := rxbuf[from..to];
      HalfwayStarts(done, span, blen, outbuf[..len], esc);
      while i < to
        invariant from <= i <= to && len == cells <= outbuf.Length
        invariant Halfway(done, span, i - from, blen, outbuf[..len], esc)
        invariant forall k :: cells <= k < outbuf.Length ==> outbuf[k] == old(outbuf[k])
      {
        if len > blen {
          TooMuchIsDropped(done, span, i - from, blen, outbuf[..len], esc);
          len, esc := 0, false;
          return;
        }
        var c := rxbuf[i];
        HalfwayGoesOn(done, span, i - from, blen, outbuf[..len], esc);
        len, esc := DecodeByte(c, outbuf, len, esc);
        i := i + 1;
        cells := len;
      }
      HalfwayEnds(done, span, blen, outbuf[..len], esc);
    }

    /** The loop that looks for an END between the packet and the last byte. */
    method FindEnd(ghost n: nat) returns (curPtr: nat, ghost j: nat)
      requires rxbuf.Length == size > 1 && pktEnd < size && n < size && nextFree == Slot(pktEnd, n, size)
      ensures j <= n && curPtr == Slot(pktEnd, j, size) && (curPtr == nextFree <==> j == n)
      ensures j < n <==> END in Ring(rxbuf[..], pktEnd, n)
      ensures var rest := Ring(rxbuf[..], pktEnd, n);
              if j < n then UpToEnd(rest) == rest[..j] else UpToEnd(rest) == []
      ensures var rest := Ring(rxbuf[..], pktEnd, n);
              curPtr == Slot(pktEnd, if END in rest then |UpToEnd(rest)| else n, size)
    {
      hide Ring, UpToEnd;
      ghost var rest := Ring(rxbuf[..], pktEnd, n);
      curPtr, j := pktEnd, 0;
      while curPtr != nextFree
        invariant j <= n && curPtr == Slot(pktEnd, j, size)
        invariant END !in rest[..j]
        decreases n - j
      {
        RingAt(rxbuf[..], pktEnd, n, j);
        if rxbuf[curPtr] == END {
          FirstEnd(rest, j);
          return;
        }
        assert rest[..j + 1] == rest[..j] + [rest[j]];
        curPtr := curPtr + 1;
        j := j + 1;
        if curPtr == size {
          curPtr := 0;
        }
      }
      assert rest[..j] == rest;
      NoEnd(rest);
    }

    /** What the buffer holds from behind the slot at `pktEnd` on, all the way round. */
    ghost function Stale(): seq<byte>
      reads this, rxbuf
      requires Valid()
    {
      Ring(rxbuf[..], Slot(pktEnd, 1, size), size - 1)
    }

    /** The end of `slip_poll_handler`: the packet goes, and the next one is looked for. */
    method RemovePacket() returns (again: bool)
      requires Valid() && pending > 0
      modifies this`begin, this`pktEnd, this`pending, this`gathered
      ensures Valid() && (AsView(), again) == AfterPoll(old(AsView()), old(Stale()))
    {
      hide Ring, UpToEnd, Slot, AfterPoll;
      ghost var buf, v := rxbuf[..], AsView();
      ghost var n := if gathered > 0 then gathered - 1 else size - 1;
      PolledParts(v, Stale());
      RingsMeet(buf, begin, pending, gathered);
      RingsMeet(buf, pktEnd, 1, n);
      NextSlot(pktEnd, size);
      pktEnd := pktEnd + 1;
      if pktEnd == size {
        pktEnd := 0;
      }
      assert gathered > 0 ==> Ring(buf, pktEnd, n) == v.partial[1..];
      again := FindPacket(n);
    }

    /** Its search for the next packet; the result is the call of `process_poll`. */
    method FindPacket(ghost n: nat) returns (again: bool)
      requires rxbuf.Length == size > 1 && pktEnd < size && n < size && nextFree == Slot(pktEnd, n, size)
      modifies this`begin, this`pktEnd, this`pending, this`gathered
      ensures var rest := Ring(rxbuf[..], old(pktEnd), n);
              Valid() && AsView() == View(state, UpToEnd(rest), rest[|UpToEnd(rest)|..]) && (again <==> END in rest)
    {
      hide Ring, UpToEnd, Slot;
      ghost var buf := rxbuf[..];
      NoPacket(buf, pktEnd);
      NextSlot(pktEnd, size);
      again := false;
      if pktEnd != nextFree {
        var curPtr;
        ghost var j;
        curPtr, j := FindEnd(n);
        if curPtr != nextFree {
          RingsMeet(buf, pktEnd, j, n - j);
          var tmpBegin := pktEnd;
          pktEnd := curPtr;
          begin := tmpBegin;
          pending, gathered := j, n - j;
          again := true;
        } else {
          begin := pktEnd;
          pending, gathered := 0, n;
        }
      } else {
        begin := pktEnd;
        pending, gathered := 0, n;
        NoEnd(Ring(buf, pktEnd, n));
      }
    }

    /** `slip_poll_handler`: it needs room in the output buffer for what its loops store there, which is all
        that they decode but for what goes past one byte more than `blen`. */
    method Poll(outbuf: array<byte>, blen: nat) returns (len: nat, again: bool, ghost cells: nat)
      requires Valid() && outbuf != rxbuf
      requires PollCells(AsView().packet, size - begin, blen) <= outbuf.Length
      modifies this`begin, this`pktEnd, this`pending, this`gathered, outbuf
      ensures Valid() && (AsView(), again) == AfterPoll(old(AsView()), old(Stale()))
      ensures len <= outbuf.Length
      ensures outbuf[..len] == Decode(HandedOver(old(AsView().packet), old(size - begin), blen)).bytes
      ensures cells == PollCells(old(AsView().packet), old(size - begin), blen)
      ensures forall k :: cells <= k < outbuf.Length ==> outbuf[k] == old(outbuf[k])
    {
      hide Ring, Decode, Kept, Cells, AfterPoll, UpToEnd;
      ghost var v := AsView();
      NothingPolled(v, size - begin, blen, Stale());
      if begin != pktEnd {
        NothingEscaped();
        RingInPieces(rxbuf[..], begin, pending);
        var esc;
        if begin < pktEnd {
          assert rxbuf[begin..pktEnd] == rxbuf[..][begin..pktEnd];
          OneSpan(v.packet, size - begin, blen);
          len, esc, cells := DecodeSpan(begin, pktEnd, outbuf, blen, 0, false, []);
        } else {
          assert rxbuf[begin..size] == rxbuf[..][begin..] && rxbuf[0..pktEnd] == rxbuf[..][..pktEnd];
          TwoSpans(v.packet, rxbuf[begin..size], rxbuf[0..pktEnd], blen);
          ghost var first;
          len, esc, first := DecodeSpan(begin, size, outbuf, blen, 0, false, []);
          len, esc, cells := DecodeSpan(0, pktEnd, outbuf, blen, len, esc, Kept([], rxbuf[begin..size], blen));
          cells := Max(first, cells);
        }
        again := RemovePacket();
        return;
      }
      return 0, false, 0;
    }
  }

  /** The raw bytes of what a poll hands over, of a packet that goes round the end of the buffer after
      `turn` bytes (or not at all). */
  function HandedOver(packet: seq<byte>, turn: nat, blen: nat): seq<byte> {
    if turn < |packet| then Kept(Kept([], packet[..turn], blen), packet[turn..], blen) else Kept([], packet, blen)
  }

  /** How many bytes of the output buffer a poll stores to. */
  function PollCells(packet: seq<byte>, turn: nat, blen: nat): nat {
    if turn < |packet| then
      Max(Cells([], packet[..turn], blen), Cells(Kept([], packet[..turn], blen), packet[turn..], blen))
    else Cells([], packet, blen)
  }

  lemma {:induction false} FirstEnd(s: seq<byte>, j: nat)
    requires j < |s| && END !in s[..j] && s[j] == END
    ensures UpToEnd(s) == s[..j]
    decreases j
  {
    if j > 0 {
      assert s[..j] == [s[0]] + s[1..][..j - 1];
      FirstEnd(s[1..], j - 1);
    }
  }

  lemma PolledParts(v: View, stale: seq<byte>)
    requires v.packet != []
    ensures var rest := if v.partial == [] then stale else v.partial[1..];
            AfterPoll(v, stale) == (View(v.state, UpToEnd(rest), rest[|UpToEnd(rest)|..]), END in rest)
  {
  }

  lemma OneSpan(packet: seq<byte>, turn: nat, blen: nat)
    requires turn >= |packet|
    ensures HandedOver(packet, turn, blen) == Kept([], packet, blen)
    ensures PollCells(packet, turn, blen) == Cells([], packet, blen)
  {
  }

  lemma TwoSpans(packet: seq<byte>, a: seq<byte>, b: seq<byte>, blen: nat)
    requires packet == a + b
    ensures HandedOver(packet, |a|, blen) == Kept(Kept([], a, blen), b, blen)
    ensures PollCells(packet, |a|, blen) == Max(Cells([], a, blen), Cells(Kept([], a, blen), b, blen))
  {
    if b == [] {
      assert packet == a && [] + a == a;
      KeptIsLess(a, blen);
      assert Kept([], a, blen) + b == Kept([], a, blen);
    } else {
      assert packet[..|a|] == a && packet[|a|..] == b;
    }
  }

  lemma KeptIsLess(a: seq<byte>, blen: nat)
    ensures Cells(Kept([], a, blen), [], blen) <= Cells([], a, blen)
  {
    assert [] + a == a && Kept([], a, blen) + [] == Kept([], a, blen);
  }

  lemma NothingPolled(v: View, turn: nat, blen: nat, stale: seq<byte>)
    ensures v.packet == [] ==>
              AfterPoll(v, stale) == (v, false) && Decode(HandedOver(v.packet, turn, blen)) == Decoded([], false)
    ensures v.packet == [] ==> PollCells(v.packet, turn, blen) == 0
  {
  }

  lemma HalfwayStarts(done: seq<byte>, span: seq<byte>, blen: nat, out: seq<byte>, esc: bool)
    requires Decode(done) == Decoded(out, esc) && |out| <= blen + 1 && (|out| > blen ==> !esc)
    ensures Halfway(done, span, 0, blen, out, esc)
  {
    hide Decode;
    assert span[..0] == [] && done + [] == done;
  }

  lemma HalfwayGoesOn(done: seq<byte>, span: seq<byte>, n: nat, blen: nat, out: seq<byte>, esc: bool)
    requires Halfway(done, span, n, blen, out, esc) && n < |span| && |out| <= blen
    ensures var d := Continue(Decoded(out, esc), span[n]);
            Halfway(done, span, n + 1, blen, d.bytes, d.esc) && |d.bytes| <= Cells(done, span, blen)
  {
    hide Decode;
    var all := done + span[..n + 1];
    assert all[..|all| - 1] == done + span[..n];
    assert all == done + span[..n] + [span[n]];
    DecodeOneMore(done + span[..n], span[n]);
    SpanHasRoom(done, span, n + 1, blen);
  }

  lemma HalfwayEnds(done: seq<byte>, span: seq<byte>, blen: nat, out: seq<byte>, esc: bool)
    requires Halfway(done, span, |span|, blen, out, esc)
    ensures Decode(Kept(done, span, blen)) == Decoded(out, esc) && Cells(done, span, blen) == |out|
    ensures |out| <= blen + 1 && (|out| > blen ==> !esc)
  {
    hide Decode, Kept;
    assert span[..|span|] == span;
  }

  lemma {:induction false} DecodeGrows(a: seq<byte>, b: seq<byte>)
    ensures |Decode(a).bytes| <= |Decode(a + b).bytes|
    decreases |b|
  {
    hide Decode;
    if b == [] {
      assert a + b == a;
    } else {
      var c := b[|b| - 1];
      assert a + b == a + b[..|b| - 1] + [c];
      DecodeGrows(a, b[..|b| - 1]);
      DecodeOneMore(a + b[..|b| - 1], c);
    }
  }

  lemma SpanHasRoom(done: seq<byte>, span: seq<byte>, n: nat, blen: nat)
    requires n <= |span|
    ensures Cells(done, span[..n], blen) <= Cells(done, span, blen)
  {
    hide Decode;
    assert done + span == done + span[..n] + span[n..];
    DecodeGrows(done + span[..n], span[n..]);
  }

  lemma TooMuchIsDropped(done: seq<byte>, span: seq<byte>, n: nat, blen: nat, out: seq<byte>, esc: bool)
    requires Halfway(done, span, n, blen, out, esc) && n < |span| && |out| > blen
    ensures Decode(Kept(done, span, blen)) == Decoded([], false) && Cells(done, span, blen) == blen + 1 == |out|
  {
    hide Decode;
    NothingEscaped();
    SpanHasRoom(done, span, n, blen);
    var all := done + span;
    assert all[..|all| - 1] == done + span[..n] + span[n..|span| - 1];
    DecodeGrows(done + span[..n], span[n..|span| - 1]);
  }

  // ---------------------------------------------------------------------------------------------
  // There and back

  /** The last byte of an escaped packet is what completes its last byte. */
  lemma LastByteCompletes(p: seq<byte>)
    requires p != []
    ensures Escape(p) != [] && Decode(Escape(p)[..|Escape(p)| - 1]).bytes == p[..|p| - 1]
  {
    hide Decode, Escape;
    var front, c := Escape(p[..|p| - 1]), p[|p| - 1];
    EscapeOneMore(p);
    DecodeUndoesEscape(p[..|p| - 1]);
    if c == END || c == ESC {
      assert Escape(p)[..|Escape(p)| - 1] == front + [ESC];
      DecodeOneMore(front, ESC);
    } else {
      assert Escape(p)[..|Escape(p)| - 1] == front;
    }
  }

  lemma PrefixDecodesToLess(p: seq<byte>, n: nat)
    requires n < |Escape(p)|
    ensures |Decode(Escape(p)[..n]).bytes| < |p|
  {
    hide Decode, Escape;
    var e := Escape(p);
    LastByteCompletes(p);
    assert e[..|e| - 1] == e[..n] + e[n..|e| - 1];
    DecodeGrows(e[..n], e[n..|e| - 1]);
  }

  /** A packet of up to `blen` bytes, and of one more, is handed over wherever it lies in the buffer.  A longer
      one is not, but if it goes round the end of the buffer when too much is decoded already, what lies
      beyond the turn is taken for a packet. */
  lemma PacketIsHandedOver(p: seq<byte>, turn: nat, blen: nat)
    requires p != [] && turn > 0
    ensures var e := Escape(p);
            HandedOver(e, turn, blen) ==
            if |p| <= blen + 1 then e
            else if turn < |e| && |Decode(e[..turn - 1]).bytes| > blen then Kept([], e[turn..], blen)
            else []
  {
    hide Decode, Escape, Kept;
    var e := Escape(p);
    LastByteCompletes(p);
    WholeIsKept(e, blen);
    if turn < |e| {
      PrefixDecodesToLess(p, turn - 1);
      WholeIsKept(e[..turn], blen);
      assert e[..turn][..turn - 1] == e[..turn - 1];
      RestIsKept(e[..turn], e[turn..], blen);
      assert e[..turn] + e[turn..] == e;
    }
  }

  lemma WholeIsKept(a: seq<byte>, blen: nat)
    requires a != []
    ensures Kept([], a, blen) == if |Decode(a[..|a| - 1]).bytes| > blen then [] else a
  {
    hide Decode;
    assert [] + a == a;
  }

  lemma RestIsKept(a: seq<byte>, b: seq<byte>, blen: nat)
    requires b != []
    ensures Kept(a, b, blen) == if |Decode((a + b)[..|a + b| - 1]).bytes| > blen then [] else a + b
  {
  }

  /** A poll stores to the byte behind `blen` bytes of output if and only if the packet is longer than that,
      wherever it lies in the buffer. */
  lemma PollStoresPastBlen(p: seq<byte>, turn: nat, blen: nat)
    requires p != [] && turn > 0
    ensures PollCells(Escape(p), turn, blen) == Min(|p|, blen + 1)
    ensures PollCells(Escape(p), turn, blen) > blen <==> |p| > blen
  {
    hide Decode, Escape, Kept, Cells;
    var e := Escape(p);
    DecodeUndoesEscape(p);
    CellsOf([], e, e, blen);
    if turn < |e| {
      var a, b := e[..turn], e[turn..];
      assert e == a + b;
      CellsOf([], a, a, blen);
      DecodeGrows(a, b);
      KeptOrTooMuch(a, blen);
      CellsOf(Kept([], a, blen), b, Kept([], a, blen) + b, blen);
    }
  }

  lemma CellsOf(done: seq<byte>, span: seq<byte>, all: seq<byte>, blen: nat)
    requires done + span == all
    ensures Cells(done, span, blen) == Min(|Decode(all).bytes|, blen + 1)
    ensures Cells(done, span, blen) <= blen + 1
  {
    hide Decode;
  }

  lemma KeptOrTooMuch(a: seq<byte>, blen: nat)
    ensures Kept([], a, blen) == a || |Decode(a).bytes| > blen
  {
    hide Decode;
    assert [] + a == a;
    if a != [] {
      var n := |a| - 1;
      assert a == a[..n] + [a[n]];
      DecodeGrows(a[..n], [a[n]]);
    }
  }

  function Ones(n: nat): (r: seq<byte>)
    ensures |r| == n
  {
    if n == 0 then [] else Ones(n - 1) + [1]
  }

  /** The receive buffer is 16 bytes larger than the output buffer, so that there are such packets. */
  lemma LongerPacketFits(blen: nat)
    ensures Fits(Ones(blen + 1), blen + 16) && |Ones(blen + 1)| > blen
  {
    PlainBytes(blen + 1);
  }

  lemma {:induction false} PlainBytes(n: nat)
    ensures Escape(Ones(n)) == Ones(n)
  {
    hide Escape;
    if n == 0 {
      NothingEscaped();
    } else {
      assert Ones(n)[..n - 1] == Ones(n - 1);
      PlainBytes(n - 1);
      EscapeOneMore(Ones(n));
    }
  }

  /** A packet of up to `blen` bytes goes through an idle receiver unchanged, wherever in the buffer it comes
      to lie, to an output buffer of that size, and leaves the receiver idle. */
  method PassPacket(driver: Driver, p: seq<byte>, outbuf: array<byte>, blen: nat) returns (len: nat)
    requires driver.Valid() && driver.AsView() == IDLE
    requires outbuf != driver.rxbuf && blen <= outbuf.Length
    requires |p| < 0x1_0000 && |p| <= blen && Fits(p, driver.size)
    modifies driver`state, driver`nextFree, driver`pktEnd, driver`pending, driver`gathered, driver`begin
    modifies driver.rxbuf, outbuf
    ensures driver.Valid() && driver.AsView() == IDLE
    ensures len <= outbuf.Length && outbuf[..len] == p
    ensures forall k :: len <= k < outbuf.Length ==> outbuf[k] == old(outbuf[k])
  {
    hide Escape, Decode, ReceiveAll, Polled, AfterPoll, HandedOver, PollCells, Receive, Ring;
    var line := Write(p);
    FeedLine(driver, line);
    FrameBecomesPacket(p, driver.size);
    PacketIsHandedOver(p, driver.size - driver.begin, blen);
    PollStoresPastBlen(p, driver.size - driver.begin, blen);
    DecodeUndoesEscape(p);
    var again;
    ghost var cells;
    PollWithEnd(driver.AsView(), driver.Stale());
    len, again, cells := driver.Poll(outbuf, blen);
  }

  /** Packets are written to a line and come back from it one by one, in order and unchanged. */
  method ThereAndBack(payloads: seq<seq<byte>>, size: nat, blen: nat) returns (got: seq<seq<byte>>)
    requires forall i :: 0 <= i < |payloads| ==>
      |payloads[i]| < 0x1_0000 && |payloads[i]| <= blen && Fits(payloads[i], size)
    requires size > 1
    ensures got == payloads
  {
    hide Fits, Ring;
    var driver := new Driver(size);
    var outbuf := new byte[blen](_ => 0);
    got := [];
    for i := 0 to |payloads|
      invariant fresh(driver.rxbuf) && driver.size == size && driver.rxbuf != outbuf
      invariant driver.Valid() && driver.AsView() == IDLE
      invariant got == payloads[..i]
    {
      var len := PassPacket(driver, payloads[i], outbuf, blen);
      got := got + [outbuf[..len]];
    }
  }

  /** The interrupt handler gets the bytes of a line. */
  method FeedLine(driver: Driver, line: seq<byte>)
    requires driver.Valid()
    modifies driver`state, driver`nextFree, driver`pktEnd, driver`pending, driver`gathered, driver.rxbuf
    ensures driver.Valid() && driver.AsView() == ReceiveAll(old(driver.AsView()), line, driver.size)
  {
    hide ReceiveAll, Receive;
    NothingReceived(driver.AsView(), driver.size);
    for i := 0 to |line|
      invariant driver.Valid() && driver.AsView() == ReceiveAll(old(driver.AsView()), line[..i], driver.size)
    {
      ReceiveOneMore(old(driver.AsView()), line[..i], line[i], driver.size);
      assert line[..i + 1] == line[..i] + [line[i]];
      var wake := driver.InputByte(line[i]);
    }
    assert line[..|line|] == line;
  }
}
