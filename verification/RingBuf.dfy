/** The lock-free byte ring buffer of os/lib/ringbuf.c: one producer (an interrupt handler, say)
    calls `ringbuf_put`, one consumer (a process) calls `ringbuf_get`, and neither ever waits.

    `State` and `Step` give every interleaving of the two calls, cut at each access to memory the
    two sides share.  `accepted` and `delivered` record what the calls have reported so far: the
    bytes for which `ringbuf_put` returned 1, and the bytes that `ringbuf_get` returned.
    The class `RingBuffer` is the same code run without interference. */
module RingBuf {
  import opened Bits

  type byte = b: int | 0 <= b < 256

  const MAX_LOG_SIZE := 7

  /** `ringbuf_init` stores a power of two of at most 128, less one. */
  ghost predicate IsMask(mask: byte) {
    exists k: nat :: k <= MAX_LOG_SIZE && mask == Pow2(k) - 1
  }

  function Occupancy(putPtr: byte, getPtr: byte, mask: byte): nat {
    And(putPtr - getPtr, mask)
  }

  function Advance(ptr: byte, mask: byte): nat {
    And(ptr + 1, mask)
  }

  lemma MaskIsModulus(x: int, mask: byte)
    requires IsMask(mask)
    ensures And(x, mask) == x % (mask + 1)
  {
    var k: nat :| k <= MAX_LOG_SIZE && mask == Pow2(k) - 1;
    AndLowMask(x, k);
  }

  /** The slot that the `count`-th byte goes through. */
  function SlotOf(count: nat, size: nat): (slot: nat)
    requires 0 < size
    ensures slot < size
  {
    count % size
  }

  lemma DifferenceOfRemainders(a: nat, d: nat, size: nat)
    requires 0 < size && d <= a < d + size
    ensures (SlotOf(a, size) - SlotOf(d, size)) % size == a - d
  {
    var q := a / size - d / size;
    assert a == a / size * size + a % size && d == d / size * size + d % size;
    assert a % size - d % size == -q * size + (a - d);
    ModIsUnique(a % size - d % size, size, -q, a - d);
  }

  lemma SuccessorOfRemainder(a: nat, size: nat)
    requires 0 < size
    ensures (SlotOf(a, size) + 1) % size == SlotOf(a + 1, size)
  {
    var q, r := (a % size + 1) / size, (a % size + 1) % size;
    assert a + 1 == (a / size + q) * size + r by {
      assert a == a / size * size + a % size;
    }
    ModIsUnique(a + 1, size, a / size + q, r);
  }

  /** Two counts that differ by less than the size fall on different slots. */
  lemma SlotsDiffer(a: nat, b: nat, size: nat)
    requires 0 < size && a < b < a + size
    ensures SlotOf(a, size) != SlotOf(b, size)
  {
    DifferenceOfRemainders(b, a, size);
  }

  // ---------------------------------------------------------------------------------------------
  // All interleavings

  /** Where the producer stands inside `ringbuf_put(c)`. */
  datatype Producer =
    | PutIdle
    | PutSampled(c: byte, seenGet: byte)   // get_ptr has been read, the test is still to come
    | PutStoring(c: byte)                  // not full: data[put_ptr] is written next
    | PutPublishing(c: byte)               // data is in place: put_ptr is written next

  /** Where the consumer stands inside `ringbuf_get()`. */
  datatype Consumer =
    | GetIdle
    | GetSampled(seenPut: byte)            // put_ptr has been read, the test is still to come
    | GetLoading                           // not empty: data[get_ptr] is read next
    | GetReleasing(c: byte)                // the byte is in hand: get_ptr is written next

  datatype State = State(
    data: seq<byte>, mask: byte, putPtr: byte, getPtr: byte,
    producer: Producer, consumer: Consumer,
    accepted: seq<byte>, delivered: seq<byte>)

  predicate ProducerStep(s: State, t: State) {
    match s.producer
    case PutIdle =>
      && t.producer.PutSampled?
      && t == s.(producer := PutSampled(t.producer.c, s.getPtr))
    case PutSampled(c, g) =>
      t == s.(producer := if Occupancy(s.putPtr, g, s.mask) == s.mask then PutIdle else PutStoring(c))
    case PutStoring(c) =>
      && s.putPtr < |s.data|
      && t == s.(data := s.data[s.putPtr := c], producer := PutPublishing(c))
    case PutPublishing(c) =>
      && Advance(s.putPtr, s.mask) < 256
      && t == s.(putPtr := Advance(s.putPtr, s.mask), producer := PutIdle, accepted := s.accepted + [c])
  }

  predicate ConsumerStep(s: State, t: State) {
    match s.consumer
    case GetIdle =>
      t == s.(consumer := GetSampled(s.putPtr))
    case GetSampled(p) =>
      t == s.(consumer := if Occupancy(p, s.getPtr, s.mask) != 0 then GetLoading else GetIdle)
    case GetLoading =>
      && s.getPtr < |s.data|
      && t == s.(consumer := GetReleasing(s.data[s.getPtr]))
    case GetReleasing(c) =>
      && Advance(s.getPtr, s.mask) < 256
      && t == s.(getPtr := Advance(s.getPtr, s.mask), consumer := GetIdle, delivered := s.delivered + [c])
  }

  predicate Step(s: State, t: State) {
    ProducerStep(s, t) || ConsumerStep(s, t)
  }

  ghost predicate Init(s: State) {
    && IsMask(s.mask) && |s.data| == s.mask + 1
    && s.putPtr == s.getPtr == 0
    && s.producer == PutIdle && s.consumer == GetIdle
    && s.accepted == s.delivered == []
  }

  ghost predicate IsRun(run: seq<State>) {
    && |run| > 0 && Init(run[0])
    && forall i :: 0 < i < |run| ==> Step(run[i - 1], run[i])
  }

  // ---------------------------------------------------------------------------------------------
  // What every reachable state satisfies

  /** Bytes accepted and not yet delivered. */
  function Backlog(s: State): int {
    |s.accepted| - |s.delivered|
  }

  ghost predicate Ring(s: State) {
    && IsMask(s.mask) && |s.data| == s.mask + 1
    && s.putPtr == SlotOf(|s.accepted|, s.mask + 1)
    && s.getPtr == SlotOf(|s.delivered|, s.mask + 1)
    && 0 <= Backlog(s) <= s.mask
    && s.delivered == s.accepted[..|s.delivered|]
    && forall i {:trigger s.accepted[i]} :: |s.delivered| <= i < |s.accepted| ==>
      s.data[SlotOf(i, s.mask + 1)] == s.accepted[i]
  }

  /** A sample may be stale, but only ever on the safe side: the producer sees at least the real
      backlog and the consumer at most. */
  ghost predicate Positions(s: State)
    requires Ring(s)
  {
    && (match s.producer
        case PutIdle => true
        case PutSampled(_, g) => Backlog(s) <= Occupancy(s.putPtr, g, s.mask)
        case PutStoring(_) => Backlog(s) < s.mask
        case PutPublishing(c) => Backlog(s) < s.mask && s.data[s.putPtr] == c)
    && (match s.consumer
        case GetIdle => true
        case GetSampled(p) => Occupancy(p, s.getPtr, s.mask) <= Backlog(s)
        case GetLoading => 0 < Backlog(s)
        case GetReleasing(c) => 0 < Backlog(s) && c == s.accepted[|s.delivered|])
  }

  ghost predicate Inv(s: State) {
    Ring(s) && Positions(s)
  }

  lemma OccupancyIsBacklog(s: State)
    requires Ring(s)
    ensures Occupancy(s.putPtr, s.getPtr, s.mask) == Backlog(s)
  {
    hide And, IsMask, SlotOf;
    MaskIsModulus(s.putPtr - s.getPtr, s.mask);
    DifferenceOfRemainders(|s.accepted|, |s.delivered|, s.mask + 1);
  }

  lemma OccupancyFits(putPtr: byte, getPtr: byte, mask: byte)
    requires IsMask(mask)
    ensures Occupancy(putPtr, getPtr, mask) <= mask
  {
    MaskIsModulus(putPtr - getPtr, mask);
  }

  lemma AdvanceIsSuccessor(ptr: byte, mask: byte, count: nat)
    requires IsMask(mask) && ptr == SlotOf(count, mask + 1)
    ensures Advance(ptr, mask) == SlotOf(count + 1, mask + 1)
  {
    hide And, IsMask, SlotOf;
    MaskIsModulus(ptr + 1, mask);
    SuccessorOfRemainder(count, mask + 1);
  }

  lemma ProducerKeepsInv(s: State, t: State)
    requires Inv(s) && ProducerStep(s, t)
    ensures Inv(t)
  {
    hide And, IsMask, SlotOf, Occupancy, Advance;
    var size := s.mask + 1;
    OccupancyIsBacklog(s);
    match s.producer
    case PutIdle =>
    case PutSampled(c, g) =>
      OccupancyFits(s.putPtr, g, s.mask);
    case PutStoring(c) =>
      forall i | |s.delivered| <= i < |s.accepted|
        ensures SlotOf(i, size) != s.putPtr
      {
        SlotsDiffer(i, |s.accepted|, size);
      }
    case PutPublishing(c) =>
      AdvanceIsSuccessor(s.putPtr, s.mask, |s.accepted|);
  }

  lemma ConsumerKeepsInv(s: State, t: State)
    requires Inv(s) && ConsumerStep(s, t)
    ensures Inv(t)
  {
    hide And, IsMask, SlotOf, Occupancy, Advance;
    var size := s.mask + 1;
    OccupancyIsBacklog(s);
    match s.consumer
    case GetIdle =>
    case GetSampled(p) =>
    case GetLoading =>
      assert s.data[SlotOf(|s.delivered|, size)] == s.accepted[|s.delivered|];
    case GetReleasing(c) =>
      AdvanceIsSuccessor(s.getPtr, s.mask, |s.delivered|);
      assert t.delivered == t.accepted[..|t.delivered|];
  }

  lemma {:induction false} RunKeepsInv(run: seq<State>, i: nat)
    requires IsRun(run) && i < |run|
    ensures Inv(run[i])
  {
    if i > 0 {
      RunKeepsInv(run, i - 1);
      if ProducerStep(run[i - 1], run[i]) {
        ProducerKeepsInv(run[i - 1], run[i]);
      } else {
        ConsumerKeepsInv(run[i - 1], run[i]);
      }
    }
  }

  /** In every state of every interleaving the bytes handed out are, in order, a prefix of the bytes
      taken in; no more than `mask` bytes are ever pending, and `ringbuf_elements` counts them. */
  lemma DeliveredIsPrefixOfAccepted(run: seq<State>, i: nat)
    requires IsRun(run) && i < |run|
    ensures run[i].delivered <= run[i].accepted
    ensures |run[i].accepted| - |run[i].delivered| ==
      Occupancy(run[i].putPtr, run[i].getPtr, run[i].mask) <= run[i].mask
  {
    RunKeepsInv(run, i);
    OccupancyIsBacklog(run[i]);
  }

  /** No step overwrites the slot of a byte that is still pending after it. */
  lemma UnreadSlotsSurvive(run: seq<State>, i: nat, k: nat)
    requires IsRun(run) && 0 < i < |run|
    requires |run[i].delivered| <= k < |run[i - 1].accepted|
    ensures |run[i].data| == |run[i - 1].data| == run[i].mask + 1
    ensures run[i].data[SlotOf(k, run[i].mask + 1)] == run[i - 1].data[SlotOf(k, run[i].mask + 1)] ==
      run[i - 1].accepted[k]
  {
    hide And, IsMask, SlotOf, Occupancy, Advance, Positions;
    RunKeepsInv(run, i - 1);
    RunKeepsInv(run, i);
    assert run[i].accepted[k] == run[i - 1].accepted[k];
  }

  /** `ringbuf_put` takes the byte if and only if there was room when it read `get_ptr`, whatever
      the consumer does between that read and the test. */
  lemma PutRefusesExactlyWhenFull(run: seq<State>, i: nat, j: nat)
    requires IsRun(run) && 0 < i < j < |run|
    requires run[i - 1].producer.PutIdle? && run[i].producer.PutSampled?
    requires forall m :: i <= m < j ==> run[m].producer == run[i].producer
    requires run[j].producer != run[i].producer
    ensures run[j].producer ==
      if Backlog(run[i - 1]) == run[i - 1].mask then PutIdle else PutStoring(run[i].producer.c)
  {
    hide Inv, Occupancy, Advance;
    RunKeepsRing(run, i - 1);
    OccupancyIsBacklog(run[i - 1]);
    SampleStays(run, i, j - 1);
    assert Step(run[i - 1], run[i]) && Step(run[j - 1], run[j]);
  }

  lemma RunKeepsRing(run: seq<State>, i: nat)
    requires IsRun(run) && i < |run|
    ensures Ring(run[i])
  {
    RunKeepsInv(run, i);
  }

  lemma {:induction false} SampleStays(run: seq<State>, i: nat, j: nat)
    requires IsRun(run) && 0 < i <= j < |run|
    requires run[i].producer.PutSampled?
    requires forall m :: i <= m <= j ==> run[m].producer == run[i].producer
    ensures run[j].putPtr == run[i].putPtr && run[j].mask == run[i].mask
    decreases j
  {
    if i < j {
      SampleStays(run, i, j - 1);
      assert Step(run[j - 1], run[j]);
    }
  }

  /** The states from `i` to `k` are those after the first step of one call of `ringbuf_put` up to its return. */
  ghost predicate OnePut(run: seq<State>, i: nat, k: nat) {
    && IsRun(run) && 0 < i < k < |run| && run[i - 1].producer.PutIdle? && run[k].producer.PutIdle?
    && forall m :: i <= m < k ==> !run[m].producer.PutIdle?
  }

  /** Where a call of `ringbuf_put(c)` can stand if `start` is the state it was made in. */
  predicate Putting(start: State, s: State, c: byte) {
    && s.mask == start.mask && s.accepted == start.accepted
    && match s.producer
       case PutIdle => false
       case PutSampled(d, g) => d == c && s.putPtr == start.putPtr && g == start.getPtr
       case PutStoring(d) => d == c && Backlog(start) != start.mask
       case PutPublishing(d) => d == c && Backlog(start) != start.mask
  }

  lemma {:induction false} CallIsPutting(run: seq<State>, i: nat, k: nat, m: nat)
    requires OnePut(run, i, k) && i <= m < k
    ensures run[i].producer.PutSampled? && Putting(run[i - 1], run[m], run[i].producer.c)
    decreases m
  {
    hide Ring, Occupancy, Advance, Init;
    assert Step(run[m - 1], run[m]);
    if i < m {
      CallIsPutting(run, i, k, m - 1);
      RunKeepsRing(run, i - 1);
      OccupancyIsBacklog(run[i - 1]);
    }
  }

  /** A whole call of `ringbuf_put`: it adds its byte to what was accepted before, and only at its end, unless the
      buffer was full when it began. */
  lemma PutAddsItsByte(run: seq<State>, i: nat, k: nat)
    requires OnePut(run, i, k)
    ensures run[i].producer.PutSampled?
    ensures forall m :: i <= m < k ==> run[m].accepted == run[i - 1].accepted
    ensures run[k].accepted == run[i - 1].accepted +
      if Backlog(run[i - 1]) == run[i - 1].mask then [] else [run[i].producer.c]
  {
    hide Ring, Occupancy, Advance, Init;
    forall m | i <= m < k
      ensures run[i].producer.PutSampled? && Putting(run[i - 1], run[m], run[i].producer.c)
    {
      CallIsPutting(run, i, k, m);
    }
    RunKeepsRing(run, i - 1);
    OccupancyIsBacklog(run[i - 1]);
    assert Step(run[k - 1], run[k]);
  }

  /** `ringbuf_get` reports an empty buffer if and only if it was empty when it read `put_ptr`. */
  lemma GetFailsExactlyWhenEmpty(run: seq<State>, i: nat, j: nat)
    requires IsRun(run) && 0 < i < j < |run|
    requires run[i - 1].consumer.GetIdle? && run[i].consumer.GetSampled?
    requires forall m :: i <= m < j ==> run[m].consumer == run[i].consumer
    requires run[j].consumer != run[i].consumer
    ensures run[j].consumer == if Backlog(run[i - 1]) == 0 then GetIdle else GetLoading
  {
    hide Inv, Occupancy, Advance;
    RunKeepsRing(run, i - 1);
    OccupancyIsBacklog(run[i - 1]);
    ReadStays(run, i, j - 1);
    assert Step(run[i - 1], run[i]) && Step(run[j - 1], run[j]);
  }

  lemma {:induction false} ReadStays(run: seq<State>, i: nat, j: nat)
    requires IsRun(run) && 0 < i <= j < |run|
    requires run[i].consumer.GetSampled?
    requires forall m :: i <= m <= j ==> run[m].consumer == run[i].consumer
    ensures run[j].getPtr == run[i].getPtr && run[j].mask == run[i].mask
    decreases j
  {
    if i < j {
      ReadStays(run, i, j - 1);
      assert Step(run[j - 1], run[j]);
    }
  }

  /** The same for one call of `ringbuf_get`. */
  ghost predicate OneGet(run: seq<State>, i: nat, k: nat) {
    && IsRun(run) && 0 < i < k < |run| && run[i - 1].consumer.GetIdle? && run[k].consumer.GetIdle?
    && forall m :: i <= m < k ==> !run[m].consumer.GetIdle?
  }

  /** Where a call of `ringbuf_get` can stand if `start` is the state it was made in. */
  predicate Getting(start: State, s: State) {
    && s.mask == start.mask && s.delivered == start.delivered && start.accepted <= s.accepted
    && match s.consumer
       case GetIdle => false
       case GetSampled(p) => s.getPtr == start.getPtr && p == start.putPtr
       case GetLoading => Backlog(start) != 0
       case GetReleasing(_) => Backlog(start) != 0
  }

  lemma {:induction false} CallIsGetting(run: seq<State>, i: nat, k: nat, m: nat)
    requires OneGet(run, i, k) && i <= m < k
    ensures Getting(run[i - 1], run[m])
    decreases m
  {
    hide Ring, Occupancy, Advance, Init;
    assert Step(run[m - 1], run[m]);
    if i < m {
      CallIsGetting(run, i, k, m - 1);
      RunKeepsRing(run, i - 1);
      OccupancyIsBacklog(run[i - 1]);
    }
  }

  /** A whole call of `ringbuf_get`: it hands out the oldest unread byte, and only at its end, unless the buffer was
      empty when it began. */
  lemma GetTakesTheOldest(run: seq<State>, i: nat, k: nat)
    requires OneGet(run, i, k)
    ensures forall m :: i <= m < k ==> run[m].delivered == run[i - 1].delivered
    ensures 0 <= Backlog(run[i - 1])
    ensures run[k].delivered == run[i - 1].delivered +
      if Backlog(run[i - 1]) == 0 then [] else [run[i - 1].accepted[|run[i - 1].delivered|]]
  {
    hide Occupancy, Advance, Init, IsMask, SlotOf;
    forall m | i <= m < k
      ensures Getting(run[i - 1], run[m])
    {
      CallIsGetting(run, i, k, m);
    }
    RunKeepsInv(run, i - 1);
    RunKeepsInv(run, k - 1);
    OccupancyIsBacklog(run[i - 1]);
    assert Step(run[k - 1], run[k]);
  }

  // ---------------------------------------------------------------------------------------------
  // The calls run one at a time

  lemma WrapOnce(x: nat, size: nat)
    requires x < 2 * size
    ensures x % size == if x < size then x else x - size
  {
    ModIsUnique(x, size, if x < size then 0 else 1, if x < size then x else x - size);
  }

  lemma OccupancyValue(putPtr: byte, getPtr: byte, mask: byte)
    requires IsMask(mask) && putPtr <= mask && getPtr <= mask
    ensures Occupancy(putPtr, getPtr, mask) == putPtr - getPtr + if getPtr <= putPtr then 0 else mask + 1
  {
    MaskIsModulus(putPtr - getPtr, mask);
    var q := if getPtr <= putPtr then 0 else -1;
    ModIsUnique(putPtr - getPtr, mask + 1, q, putPtr - getPtr - q * (mask + 1));
  }

  lemma AdvanceValue(ptr: byte, mask: byte)
    requires IsMask(mask) && ptr <= mask
    ensures Advance(ptr, mask) == if ptr == mask then 0 else ptr + 1
  {
    MaskIsModulus(ptr + 1, mask);
    WrapOnce(ptr + 1, mask + 1);
  }

  /** The slot of the `i`-th pending byte. */
  function Slot(getPtr: byte, i: nat, mask: byte): int {
    if getPtr + i <= mask then getPtr + i else getPtr + i - (mask + 1)
  }

  class RingBuffer {
    const data: array<byte>
    const mask: byte
    var putPtr: byte
    var getPtr: byte
    ghost var contents: seq<byte>

    ghost predicate Valid()
      reads this, data
    {
      && IsMask(mask) && data.Length == mask + 1
      && putPtr <= mask && getPtr <= mask
      && |contents| == Occupancy(putPtr, getPtr, mask) <= mask
      && forall i {:trigger contents[i]} :: 0 <= i < |contents| ==> contents[i] == data[Slot(getPtr, i, mask)]
    }

    /** `ringbuf_init`: the caller supplies the storage and its size. */
    constructor (storage: array<byte>)
      requires exists k: nat :: k <= MAX_LOG_SIZE && storage.Length == Pow2(k)
      requires storage.Length <= 128
      ensures Valid() && data == storage && contents == []
    {
      data := storage;
      mask := storage.Length - 1;
      putPtr, getPtr := 0, 0;
      contents := [];
      new;
      OccupancyValue(putPtr, getPtr, mask);
    }

    method Put(c: byte) returns (accepted: bool)
      requires Valid()
      modifies this, data
      ensures Valid()
      ensures accepted == (|old(contents)| < mask)
      ensures contents == if accepted then old(contents) + [c] else old(contents)
    {
      hide Occupancy, Advance, IsMask;
      OccupancyValue(putPtr, getPtr, mask);
      if Occupancy(putPtr, getPtr, mask) == mask {
        return false;
      }
      data[putPtr] := c;
      AdvanceValue(putPtr, mask);
      putPtr := Advance(putPtr, mask);
      OccupancyValue(putPtr, getPtr, mask);
      contents := contents + [c];
      return true;
    }

    /** `empty` stands for the -1 that the C function returns. */
    method Get() returns (empty: bool, c: byte)
      requires Valid()
      modifies this
      ensures Valid()
      ensures empty == (old(contents) == [])
      ensures empty ==> contents == []
      ensures !empty ==> [c] + contents == old(contents)
    {
      hide Occupancy, Advance, IsMask;
      OccupancyValue(putPtr, getPtr, mask);
      if Occupancy(putPtr, getPtr, mask) == 0 {
        return true, 0;
      }
      c := data[getPtr];
      assert c == contents[0];
      AdvanceValue(getPtr, mask);
      getPtr := Advance(getPtr, mask);
      OccupancyValue(putPtr, getPtr, mask);
      ghost var all := contents;
      contents := contents[1..];
      assert forall i {:trigger contents[i]} :: 0 <= i < |contents| ==> contents[i] == all[i + 1];
      empty := false;
    }

    method Elements() returns (n: nat)
      requires Valid()
      ensures n == |contents| <= mask
    {
      n := Occupancy(putPtr, getPtr, mask);
    }
  }
}
