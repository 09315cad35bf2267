/** SLIP framing as os/dev/slip.c does it (RFC 1055), on byte strings: what is sent for a packet, what the
    bytes of a frame stand for, and the receiver without its circular buffer. */
module SlipCoding {
  import opened ByteStrings

  const END: byte := 0xc0
  const ESC: byte := 0xdb
  const ESC_END: byte := 0xdc
  const ESC_ESC: byte := 0xdd

  // ---------------------------------------------------------------------------------------------
  // Escaping

  function Code(c: byte): (r: seq<byte>)
    ensures 1 <= |r| <= 2 && END !in r
  {
    if c == END then [ESC, ESC_END] else if c == ESC then [ESC, ESC_ESC] else [c]
  }

  function Escape(p: seq<byte>): (r: seq<byte>)
    ensures END !in r && |p| <= |r| <= 2 * |p|
  {
    if p == [] then [] else Escape(p[..|p| - 1]) + Code(p[|p| - 1])
  }

  lemma EscapeOneMore(p: seq<byte>)
    requires p != []
    ensures Escape(p) == Escape(p[..|p| - 1]) + Code(p[|p| - 1])
  {
  }

  function Frame(p: seq<byte>): seq<byte> {
    [END] + Escape(p) + [END]
  }

  /** The codes of RFC 1055: a byte is 0300, 0333, 0334 or 0335 there, in octal. */
  lemma FrameOfSpecialBytes()
    ensures Frame([192, 1, 219, 220]) == [192, 219, 220, 1, 219, 221, 220, 192]
  {
    var p: seq<byte> := [192, 1, 219, 220];
    assert p[..3][..2][..1] == [192] && p[..3][..2] == [192, 1] && p[..3] == [192, 1, 219];
    assert Escape([192]) == Escape([]) + Code(192);
    assert Escape([192, 1]) == Escape([192]) + Code(1);
    assert Escape([192, 1, 219]) == Escape([192, 1]) + Code(219);
    assert Escape(p) == Escape([192, 1, 219]) + Code(220);
  }

  /** What the bytes of a frame stand for, and whether an escape is still open. */
  datatype Decoded = Decoded(bytes: seq<byte>, esc: bool)

  function Continue(d: Decoded, c: byte): Decoded {
    if d.esc then Decoded(d.bytes + (if c == ESC_ESC then [ESC] else if c == ESC_END then [END] else []), false)
    else if c == ESC then Decoded(d.bytes, true)
    else Decoded(d.bytes + [c], false)
  }

  function Decode(raw: seq<byte>): (d: Decoded)
    ensures |d.bytes| <= |raw|
  {
    if raw == [] then Decoded([], false) else Continue(Decode(raw[..|raw| - 1]), raw[|raw| - 1])
  }

  lemma DecodeOneMore(raw: seq<byte>, c: byte)
    ensures Decode(raw + [c]) == Continue(Decode(raw), c)
  {
    assert (raw + [c])[..|raw|] == raw;
  }

  /** Escaping loses nothing. */
  lemma {:induction false} DecodeUndoesEscape(p: seq<byte>)
    ensures Decode(Escape(p)) == Decoded(p, false)
  {
    hide Escape, Decode, Continue;
    if p == [] {
      NothingEscaped();
    } else {
      var front, c := Escape(p[..|p| - 1]), p[|p| - 1];
      DecodeUndoesEscape(p[..|p| - 1]);
      EscapeOneMore(p);
      CodeIsDecoded(front, p[..|p| - 1], c);
      assert p == p[..|p| - 1] + [c];
    }
  }

  lemma NothingEscaped()
    ensures Escape([]) == [] && Decode([]) == Decoded([], false)
  {
  }

  lemma CodeIsDecoded(raw: seq<byte>, bytes: seq<byte>, c: byte)
    requires Decode(raw) == Decoded(bytes, false)
    ensures Decode(raw + Code(c)) == Decoded(bytes + [c], false)
  {
    hide Decode;
    if c == END || c == ESC {
      var e := Code(c)[1];
      assert raw + Code(c) == raw + [ESC] + [e];
      DecodeOneMore(raw, ESC);
      DecodeOneMore(raw + [ESC], e);
    } else {
      DecodeOneMore(raw, c);
    }
  }

  // ---------------------------------------------------------------------------------------------
  // The receiver

  datatype State = TwoPackets | Ok | Esc | Rubbish

  /** A receiver: the bytes of a whole packet that waits, and the bytes after it. */
  datatype View = View(state: State, packet: seq<byte>, partial: seq<byte>)

  /** Nothing waits and nothing has come in yet. */
  const IDLE := View(Ok, [], [])

  /** A byte is added, with room for fewer than `size` of them; the result says whether to wake the process. */
  function AddChar(v: View, c: byte, size: nat): (View, bool) {
    if |v.packet| + |v.partial| + 1 >= size then (View(Rubbish, v.packet, []), false)
    else if c != END then (v.(partial := v.partial + [c]), false)
    else if v.partial == [] then (v, false)
    else if v.packet == [] then (View(v.state, v.partial, [END]), true)
    else (v.(partial := v.partial + [END]), true)
  }

  /** One byte comes in. */
  function Receive(v: View, c: byte, size: nat): (View, bool) {
    if v.state == Rubbish then (if c == END then v.(state := Ok) else v, false)
    else if v.state == Esc && c != ESC_END && c != ESC_ESC then (v.(state := Rubbish, partial := []), false)
    else AddChar(v.(state := if c == ESC then Esc else if v.state == Esc then Ok else v.state), c, size)
  }

  /** The bytes up to the first END, or none if there is no END. */
  function UpToEnd(s: seq<byte>): (r: seq<byte>)
    ensures |r| <= |s| && END !in r
    ensures END in s ==> |r| < |s| && s[..|r|] == r && s[|r|] == END
  {
    if END !in s then [] else if s[0] == END then [] else [s[0]] + UpToEnd(s[1..])
  }

  /** The waiting packet is taken away with the END behind it; what follows up to another END waits next. */
  function Polled(v: View): View {
    if v.packet == [] || v.partial == [] then v
    else
      var rest := v.partial[1..];
      var next := UpToEnd(rest);
      View(v.state, next, rest[|next|..])
  }

  /** Whether a poll asks for another poll: another END is there, be it with or without bytes before it. */
  function PollsAgain(v: View): bool {
    v.packet != [] && v.partial != [] && END in v.partial[1..]
  }

  /** What a poll does, and whether it asks for another: the packet goes with the byte behind it, which is its END,
      and what follows up to another END waits next.  If no byte is left behind the packet, since rubbish or an
      overflow took the END away, the poll goes on into what the rest of the buffer still holds. */
  function AfterPoll(v: View, stale: seq<byte>): (View, bool) {
    if v.packet == [] then (v, false)
    else
      var rest := if v.partial == [] then stale else v.partial[1..];
      (View(v.state, UpToEnd(rest), rest[|UpToEnd(rest)|..]), END in rest)
  }

  lemma PollWithEnd(v: View, stale: seq<byte>)
    requires v.packet == [] || v.partial != []
    ensures AfterPoll(v, stale) == (Polled(v), PollsAgain(v))
  {
  }

  /** Bytes that come in one after the other. */
  function ReceiveAll(v: View, bytes: seq<byte>, size: nat): View {
    if bytes == [] then v else Receive(ReceiveAll(v, bytes[..|bytes| - 1], size), bytes[|bytes| - 1], size).0
  }

  lemma ReceiveOneMore(v: View, bytes: seq<byte>, c: byte, size: nat)
    ensures ReceiveAll(v, bytes + [c], size) == Receive(ReceiveAll(v, bytes, size), c, size).0
  {
    assert (bytes + [c])[..|bytes|] == bytes;
  }

  lemma NothingReceived(v: View, size: nat)
    ensures ReceiveAll(v, [], size) == v
  {
  }

  lemma {:induction false} ReceiveInTwo(v: View, a: seq<byte>, b: seq<byte>, size: nat)
    ensures ReceiveAll(v, a + b, size) == ReceiveAll(ReceiveAll(v, a, size), b, size)
    decreases |b|
  {
    hide Receive;
    if b == [] {
      assert a + b == a;
    } else {
      var n := |b| - 1;
      assert a + b == a + b[..n] + [b[n]];
      ReceiveInTwo(v, a, b[..n], size);
      ReceiveOneMore(v, a + b[..n], b[n], size);
    }
  }

  /** Bytes that a receiver takes for the inside of a frame: no END, and a known byte after each ESC. */
  ghost predicate Inside(s: seq<byte>, n: nat)
    requires n < |s|
  {
    s[n] != END && (Decode(s[..n]).esc ==> s[n] == ESC_END || s[n] == ESC_ESC)
  }

  lemma {:induction false} EscapedBytesAreInside(p: seq<byte>, n: nat)
    requires n < |Escape(p)|
    ensures Inside(Escape(p), n)
    decreases |p|
  {
    hide Escape, Decode;
    if p == [] {
      NothingEscaped();
    } else {
      var front, c := Escape(p[..|p| - 1]), p[|p| - 1];
      EscapeOneMore(p);
      if n < |front| {
        EscapedBytesAreInside(p[..|p| - 1], n);
        assert Escape(p)[..n] == front[..n];
      } else {
        assert Escape(p)[..n] == front + Code(c)[..n - |front|];
        CodeIsInside(front, p[..|p| - 1], c, n - |front|);
      }
    }
  }

  lemma CodeIsInside(front: seq<byte>, p: seq<byte>, c: byte, n: nat)
    requires front == Escape(p) && n < |Code(c)|
    ensures Code(c)[n] != END
    ensures Decode(front + Code(c)[..n]).esc ==> Code(c)[n] == ESC_END || Code(c)[n] == ESC_ESC
  {
    hide Escape, Decode;
    DecodeUndoesEscape(p);
    if n == 0 {
      assert front + Code(c)[..n] == front;
    }
  }

  /** The state of the receiver within a frame. */
  function StateIn(s: seq<byte>): State {
    if Decode(s).esc then Esc else Ok
  }

  /** From position `i` of an escaped packet to position `n`, the bytes are gathered behind what there is. */
  lemma {:induction false} EscapedBytesGather(v: View, p: seq<byte>, i: nat, n: nat, size: nat)
    requires i <= n <= |Escape(p)| && v.state == StateIn(Escape(p)[..i])
    requires |v.packet| + |v.partial| + (n - i) < size
    ensures ReceiveAll(v, Escape(p)[i..n], size) == View(StateIn(Escape(p)[..n]), v.packet, v.partial + Escape(p)[i..n])
    decreases n
  {
    hide Escape, ReceiveAll, Decode;
    var e := Escape(p);
    if i == n {
      NothingReceived(v, size);
    } else {
      EscapedBytesGather(v, p, i, n - 1, size);
      EscapedBytesAreInside(p, n - 1);
      assert e[i..n] == e[i..n - 1] + [e[n - 1]] && e[..n] == e[..n - 1] + [e[n - 1]];
      ReceiveOneMore(v, e[i..n - 1], e[n - 1], size);
      DecodeOneMore(e[..n - 1], e[n - 1]);
    }
  }

  /** All of an escaped packet, to a receiver that is between bytes. */
  lemma WholePacketGathers(v: View, p: seq<byte>, size: nat)
    requires v.state == Ok && |v.packet| + |v.partial| + |Escape(p)| < size
    ensures ReceiveAll(v, Escape(p), size) == View(Ok, v.packet, v.partial + Escape(p))
  {
    hide Escape, ReceiveAll, Decode;
    NothingEscaped();
    assert Escape(p)[..0] == [] && Escape(p)[0..|Escape(p)|] == Escape(p)[..|Escape(p)|] == Escape(p);
    EscapedBytesGather(v, p, 0, |Escape(p)|, size);
    DecodeUndoesEscape(p);
  }

  lemma OpeningEnd(v: View, size: nat)
    ensures ReceiveAll(v, [END], size) == Receive(v, END, size).0
  {
    assert [END] == [] + [END];
    ReceiveOneMore(v, [], END, size);
    NothingReceived(v, size);
  }

  /** A frame that comes to an idle receiver waits as a packet, wakes the process with its last byte and
      with no other, and a poll then leaves the receiver idle again. */
  lemma FrameBecomesPacket(p: seq<byte>, size: nat)
    requires p != [] && |Escape(p)| + 1 < size
    ensures var v := ReceiveAll(IDLE, [END] + Escape(p), size);
            && Receive(v, END, size) == (View(Ok, Escape(p), [END]), true)
            && ReceiveAll(IDLE, Frame(p), size) == View(Ok, Escape(p), [END])
            && Polled(View(Ok, Escape(p), [END])) == IDLE
  {
    hide Escape, ReceiveAll;
    OpeningEnd(IDLE, size);
    WholePacketGathers(IDLE, p, size);
    ReceiveInTwo(IDLE, [END], Escape(p), size);
    ReceiveOneMore(IDLE, [END] + Escape(p), END, size);
    assert [] + Escape(p) == Escape(p) && UpToEnd([]) == [];
  }

  /** A receiver that has met rubbish has dropped what it had of the frame. */
  lemma {:induction false} RubbishIsDropped(bytes: seq<byte>, size: nat)
    ensures ReceiveAll(IDLE, bytes, size).state == Rubbish ==> ReceiveAll(IDLE, bytes, size).partial == []
    decreases |bytes|
  {
    if bytes != [] {
      RubbishIsDropped(bytes[..|bytes| - 1], size);
    }
  }

  /** Rubbish ends with an END, which may be the one that opens the next frame: a frame that fits then arrives as it
      was sent, whatever has come in before, as long as no packet waits. */
  lemma FrameAfterRubbish(bytes: seq<byte>, p: seq<byte>, size: nat)
    requires Fits(p, size)
    requires ReceiveAll(IDLE, bytes, size).state == Rubbish && ReceiveAll(IDLE, bytes, size).packet == []
    ensures ReceiveAll(IDLE, bytes + Frame(p), size) == View(Ok, Escape(p), [END])
    ensures Receive(ReceiveAll(IDLE, bytes + [END] + Escape(p), size), END, size).1
    ensures Decode(Escape(p)).bytes == p
  {
    hide Escape, ReceiveAll, Decode;
    var v := View(Rubbish, [], []);
    RubbishIsDropped(bytes, size);
    DecodeUndoesEscape(p);
    OpeningEnd(v, size);
    WholePacketGathers(IDLE, p, size);
    assert [] + Escape(p) == Escape(p);
    assert bytes + Frame(p) == bytes + [END] + Escape(p) + [END];
    ReceiveInTwo(IDLE, bytes, [END], size);
    ReceiveInTwo(IDLE, bytes + [END], Escape(p), size);
    ReceiveOneMore(IDLE, bytes + [END] + Escape(p), END, size);
  }

  /** Frames that are polled one by one: what the poll hands over, and the state afterwards. */
  function Delivered(v: View, frames: seq<seq<byte>>, size: nat): (seq<seq<byte>>, View) {
    if frames == [] then ([], v)
    else
      var (got, w) := Delivered(v, frames[..|frames| - 1], size);
      var u := ReceiveAll(w, frames[|frames| - 1], size);
      (got + [Decode(u.packet).bytes], Polled(u))
  }

  ghost predicate Fits(p: seq<byte>, size: nat) {
    p != [] && |Escape(p)| + 1 < size
  }

  function Frames(payloads: seq<seq<byte>>): (r: seq<seq<byte>>)
    ensures |r| == |payloads|
  {
    seq(|payloads|, i requires 0 <= i < |payloads| => Frame(payloads[i]))
  }

  /** Every sequence of packets that fit arrives as it was sent. */
  lemma {:induction false} PacketsArrive(payloads: seq<seq<byte>>, size: nat)
    requires forall i :: 0 <= i < |payloads| ==> Fits(payloads[i], size)
    ensures Delivered(IDLE, Frames(payloads), size) == (payloads, IDLE)
  {
    hide Receive, Polled, Decode, Escape, Frame;
    if payloads != [] {
      var n := |payloads| - 1;
      PacketsArrive(payloads[..n], size);
      assert Frames(payloads)[..n] == Frames(payloads[..n]);
      FrameBecomesPacket(payloads[n], size);
      DecodeUndoesEscape(payloads[n]);
      assert payloads == payloads[..n] + [payloads[n]];
    }
  }

  // ---------------------------------------------------------------------------------------------
  // An END that is taken away

  /** A bad escape behind a packet that waits takes its END away, and then the whole rest of the buffer counts as
      received after the packet, although none of it was. */
  lemma BadEscapeTakesEnd(p: seq<byte>, c: byte, size: nat, stale: seq<byte>)
    requires Fits(p, size) && c != ESC_END && c != ESC_ESC && c != END
    ensures var v := ReceiveAll(IDLE, Frame(p) + [ESC, c], size);
            var w := AfterPoll(v, stale).0;
            v == View(Rubbish, Escape(p), []) && w.packet + w.partial == stale
  {
    hide Escape, ReceiveAll, UpToEnd;
    FrameBecomesPacket(p, size);
    ReceiveInTwo(IDLE, Frame(p), [ESC, c], size);
    var v := View(Ok, Escape(p), [END]);
    assert [ESC, c] == [] + [ESC] + [c];
    NothingReceived(v, size);
    ReceiveOneMore(v, [], ESC, size);
    ReceiveOneMore(v, [] + [ESC], c, size);
    NotFound(stale);
  }

  lemma NotFound(s: seq<byte>)
    ensures UpToEnd(s) + s[|UpToEnd(s)|..] == s
  {
    hide UpToEnd;
    NoEnd(s);
    var n := |UpToEnd(s)|;
    assert s[..n] + s[n..] == s && s[..0] == [];
  }

  lemma NoEnd(s: seq<byte>)
    ensures END !in s ==> UpToEnd(s) == []
  {
  }

  // ---------------------------------------------------------------------------------------------
  // A poll that comes late

  /** A second frame, of which `k` bytes come in while a packet waits. */
  lemma BytesBehindPacket(packet: seq<byte>, q: seq<byte>, k: nat, size: nat)
    requires packet != [] && 0 < k <= |Frame(q)| && |packet| + |Frame(q)| + 1 < size
    ensures ReceiveAll(View(Ok, packet, [END]), Frame(q)[..k], size) ==
            View(if k < |Frame(q)| then StateIn(Escape(q)[..k - 1]) else Ok, packet, [END] + Frame(q)[..k])
  {
    hide Escape, ReceiveAll, Decode;
    var v, e := View(Ok, packet, [END]), Escape(q);
    var n := if k < |Frame(q)| then k - 1 else |e|;
    OpeningEnd(v, size);
    NothingEscaped();
    assert [END] + [END] == [END, END];
    assert Receive(v, END, size).0 == View(Ok, packet, [END, END]);
    assert e[..0] == [] && e[0..n] == e[..n];
    EscapedBytesGather(View(Ok, packet, [END, END]), q, 0, n, size);
    ReceiveInTwo(v, [END], e[..n], size);
    assert [END, END] + e[..n] == [END] + ([END] + e[..n]);
    if k < |Frame(q)| {
      assert Frame(q)[..k] == [END] + e[..n];
    } else {
      DecodeUndoesEscape(q);
      assert e[..n] == e && Frame(q)[..k] == [END] + e + [END];
      assert ReceiveAll(v, [END] + e, size) == View(Ok, packet, [END, END] + e);
      ReceiveOneMore(v, [END] + e, END, size);
      assert [END] + ([END] + e) + [END] == [END] + ([END] + e + [END]);
    }
  }

  /** The rest of a frame of which the first `k` bytes are there already, with no packet waiting. */
  lemma RestOfFrame(q: seq<byte>, k: nat, size: nat)
    requires 0 < k < |Frame(q)| && |Frame(q)| < size
    ensures ReceiveAll(View(StateIn(Escape(q)[..k - 1]), [], Frame(q)[..k]), Frame(q)[k..], size) ==
            View(Ok, [END] + Escape(q), [END])
  {
    hide Escape, ReceiveAll, Decode;
    var e := Escape(q);
    var v := View(StateIn(e[..k - 1]), [], Frame(q)[..k]);
    assert Frame(q)[..k] == [END] + e[..k - 1] && Frame(q)[k..] == e[k - 1..|e|] + [END];
    EscapedBytesGather(v, q, k - 1, |e|, size);
    DecodeUndoesEscape(q);
    assert e[..|e|] == e && [END] + e[..k - 1] + e[k - 1..|e|] == [END] + e;
    ReceiveOneMore(v, e[k - 1..|e|], END, size);
  }

  /** A poll does not find a frame behind the packet, whole or not: it takes the END that opens it for the
      END of a packet without bytes. */
  lemma PollStopsAtOpeningEnd(state: State, packet: seq<byte>, q: seq<byte>, k: nat)
    requires packet != [] && 0 < k <= |Frame(q)|
    ensures Polled(View(state, packet, [END] + Frame(q)[..k])) == View(state, [], Frame(q)[..k])
    ensures PollsAgain(View(state, packet, [END] + Frame(q)[..k]))
  {
    hide Escape;
    var rest := Frame(q)[..k];
    assert ([END] + rest)[1..] == rest && rest[0] == END;
  }

  lemma DecodeWithEnds(q: seq<byte>)
    ensures Decode([END] + Escape(q)).bytes == [END] + q
    ensures Decode([END] + Escape(q) + [END]).bytes == [END] + q + [END]
  {
    hide Escape, Decode;
    EndIsDecoded(q);
    DecodeOneMore([END] + Escape(q), END);
  }

  lemma {:induction false} EndIsDecoded(q: seq<byte>)
    ensures Decode([END] + Escape(q)) == Decoded([END] + q, false)
    decreases |q|
  {
    hide Escape, Decode;
    if q == [] {
      NothingEscaped();
      assert [END] + Escape(q) == [] + [END] && [END] + q == [END];
      DecodeOneMore([], END);
    } else {
      var n := |q| - 1;
      EndIsDecoded(q[..n]);
      EscapeOneMore(q);
      CodeIsDecoded([END] + Escape(q[..n]), [END] + q[..n], q[n]);
      assert [END] + Escape(q) == [END] + Escape(q[..n]) + Code(q[n]) && [END] + q == [END] + q[..n] + [q[n]];
    }
  }

  /** What a receiver holds when the packet of a first frame is polled after `k` bytes of a second, and the
      rest of the second frame has come in too. */
  function PolledAfter(p: seq<byte>, q: seq<byte>, k: nat, size: nat): View
    requires k <= |Frame(q)|
  {
    ReceiveAll(Polled(ReceiveAll(IDLE, Frame(p) + Frame(q)[..k], size)), Frame(q)[k..], size)
  }

  /** The first packet is handed over at whatever point it is polled.  The second arrives as it was sent if
      and only if that is before its first byte.  Otherwise an END is put before it; and if its frame was
      complete, it waits for one more END, which then comes with it. */
  lemma SecondPacketNeedsPoll(p: seq<byte>, q: seq<byte>, k: nat, size: nat)
    requires p != [] && q != [] && k <= |Frame(q)| && |Escape(p)| + |Frame(q)| + 1 < size
    ensures Decode(ReceiveAll(IDLE, Frame(p) + Frame(q)[..k], size).packet).bytes == p
    ensures var w := PolledAfter(p, q, k, size);
            && (Decode(w.packet).bytes == q <==> k == 0)
            && (0 < k < |Frame(q)| ==> Decode(w.packet).bytes == [END] + q && Polled(w) == IDLE)
            && (k == |Frame(q)| ==>
                && w == View(Ok, [], Frame(q))
                && Receive(w, END, size) == (View(Ok, Frame(q), [END]), true)
                && Decode(Frame(q)).bytes == [END] + q + [END])
  {
    hide Escape, ReceiveAll, Decode, Polled;
    FrameBecomesPacket(p, size);
    DecodeUndoesEscape(p);
    DecodeWithEnds(q);
    var v := View(Ok, Escape(p), [END]);
    ReceiveInTwo(IDLE, Frame(p), Frame(q)[..k], size);
    if k == 0 {
      assert Frame(q)[..0] == [] && Frame(q)[0..] == Frame(q);
      NothingReceived(v, size);
      FrameBecomesPacket(q, size);
      DecodeUndoesEscape(q);
    } else {
      BytesBehindPacket(Escape(p), q, k, size);
      var w := ReceiveAll(v, Frame(q)[..k], size);
      PollStopsAtOpeningEnd(w.state, Escape(p), q, k);
      if k < |Frame(q)| {
        RestOfFrame(q, k, size);
        OnlyEndBehind([END] + Escape(q));
      } else {
        assert Frame(q)[..k] == Frame(q) && Frame(q)[k..] == [];
        NothingReceived(View(Ok, [], Frame(q)), size);
        NothingEscaped();
      }
    }
  }

  lemma OnlyEndBehind(packet: seq<byte>)
    requires packet != []
    ensures Polled(View(Ok, packet, [END])) == IDLE
  {
  }
}
