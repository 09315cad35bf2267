# Contiki-NG library code, modelled and proved in Dafny

Contiki-NG is an operating system for small networked devices. This project models the parts of its
library in which state is rearranged step by step, and proves what they are for.

| files | models |
|---|---|
| `RingBuf` | the lock-free byte buffer between an interrupt handler and a process: a state machine over single shared accesses in every interleaving, and the sequential class |
| `HeapLayout`, `HeapSteps`, `HeapMem`, `Bits` | the heap allocator: chunks with headers inside a byte arena, the free list through the headers, and the live objects that callers see |
| `CborEncoding`, `CborWriting`, `CborWriter`, `CborCalls`, `CborReading`, `CborReader`, `CborSession` | the CBOR writer, which learns the length of a container only when it is closed, and the reader, against the recursive encoding of RFC 8949 |
| `List`, `Memb`, `NbrState`, `NbrTable` | neighbour tables that share one pool of keys, against one map per table |
| `Sha256Block`, `Sha256`, `Sha256Constants`, `Sha256Example`, `Hmac` | SHA-256 over a message in pieces (FIPS 180-4), where its constants come from, a published digest, HMAC (RFC 2104) and HKDF (RFC 5869) |
| `Aes128`, `AesSbox`, `Aes128Example`, `CcmStar` | AES-128 (FIPS 197), its substitution table, a published ciphertext, and CCM* (RFC 3610) |
| `TrickleImax`, `TrickleTimer` | the trickle timer (RFC 6206) over a clock that wraps |
| `SlipCoding`, `Slip` | the SLIP driver (RFC 1055) with its circular receive buffer |
| `ByteStrings`, `Common` | byte strings, `Option`, minimum and maximum |

Objects that the C code updates in place are classes with the same fields, and its loops are loops. Each
method is proved against functions or predicates on plain values, and what the code promises is proved
about those. Ghost fields hold what a caller sees: the contents of a buffer, the live objects of a heap,
the abstract table, the message so far, the time behind a clock reading.

C integers are modelled with their width wherever it matters: indices and counters of 8 and 16 bits wrap,
`&` is taken on two's complement, a `size_t` is 2^32 or 2^64 where its overflow shows, SHA-256 words and
AES bytes are bit vectors.

Some results say where the code does not do what its documentation or a standard says, and exactly when:

- `sha_256_hkdf_expand` is documented for up to 255 blocks of output, as RFC 5869 allows. Its counter is a
  `uint8_t` compared with `<=`, so the loop ends exactly for up to 254 (`Hmac.ExpansionEnds`).
- `update` shifts the length of a piece in a `size_t`. With 32 bits, the bit count is that of the message
  exactly if every piece is shorter than 2^29 bytes (`Sha256.CountIsRight`).
- CCM* always writes two bytes of length before the additional data, which is RFC 3610 up to 0xfeff bytes, as
  the header says. At every greater length, and under every key, nonce and message, there is data whose MIC of
  sixteen bytes is not the RFC's, so that all MICs of a length are the RFC's exactly below 0xff00
  (`CcmStar.StandardUpToFeff`, `CcmStar.LongDataIsNotStandard`).
- A comment in `trickle_timer_config` says that Imin may be half the clock's range; the check after it
  refuses that. The header says that k = 0 turns suppression off; with error checking `config` refuses
  it. The header says that a suppressed transmission is not announced to the protocol; `fire` does call it,
  with a flag. The model follows the code in all three.
- The delay to a callback is right exactly if it is not late by more than half the clock's range
  (`TrickleTimer.DelayIsRight`). Lateness adds up: what counts is the distance to the planned time, not to
  the previous callback.
- The decoding loops of `slip_poll_handler` store to the byte behind an output buffer of `blen` bytes exactly if
  the packet is longer than `blen` (`Slip.PollStoresPastBlen`), which the receive buffer has room for
  (`Slip.LongerPacketFits`); `Slip.Driver.Poll` asks for as much room as the packet at hand needs. A packet of
  one byte more is handed over, a longer one is dropped unless it goes round the end of the receive buffer
  (`Slip.PacketIsHandedOver`).
- Rubbish or an overflow behind a SLIP packet that waits takes its END away too. The poll that follows then takes
  everything the buffer still holds for bytes that came after the packet (`SlipCoding.BadEscapeTakesEnd`,
  `Slip.Driver.RemovePacket`).
- Of two SLIP packets in a row the second arrives as it was sent exactly if the first is polled before the second
  one's first byte comes in (`SlipCoding.SecondPacketNeedsPoll`).

`dafny verify dfyconfig.toml` checks the whole project.

## Model

| member | source | states |
|---|---|---|
| RingBuf.DeliveredIsPrefixOfAccepted | os/lib/ringbuf.c:43-101 | in every state of every interleaving the bytes that the consumer got are, in order, a prefix of the bytes that the producer put; the rest are as many as the indices say, never more than size - 1 |
| RingBuf.UnreadSlotsSurvive | os/lib/ringbuf.c:43-101 | no step of either side overwrites the slot of a byte that was put and not yet got |
| RingBuf.PutRefusesExactlyWhenFull | os/lib/ringbuf.c:55-57 | over all runs: a put that sampled the other side's index next gives up if the buffer held size - 1 bytes when it sampled, and otherwise goes on to store its byte, whatever the other side does in between |
| RingBuf.GetFailsExactlyWhenEmpty | os/lib/ringbuf.c:85-100 | over all runs: a get that sampled the other side's index next finds nothing if the buffer was empty when it sampled, and otherwise goes on to load a byte |
| RingBuf.PutAddsItsByte | os/lib/ringbuf.c:43-68 | in every interleaving a whole put adds exactly its byte to what was put, at its end, unless the buffer held size - 1 bytes when it began, and then nothing |
| RingBuf.GetTakesTheOldest | os/lib/ringbuf.c:70-101 | in every interleaving a whole get hands out the oldest byte that was unread when it began, unless there was none, and then nothing |
| RingBuf.ProducerKeepsInv | os/lib/ringbuf.c:55-67 | each single access of a put keeps the relation between indices, slots and the bytes in flight, whatever the consumer is in the middle of |
| RingBuf.ConsumerKeepsInv | os/lib/ringbuf.c:85-100 | the same for each single access of a get |
| RingBuf.RunKeepsInv | os/lib/ringbuf.c:43-101 | so it holds in all states of all runs |
| RingBuf.OccupancyIsBacklog | os/lib/ringbuf.c:109-113 | the masked difference of two 8-bit indices is the number of bytes put and not yet got |
| RingBuf.RingBuffer.Put | os/lib/ringbuf.c:43-68 | accepts a byte unless size - 1 are in the buffer, and appends it to the contents |
| RingBuf.RingBuffer.Get | os/lib/ringbuf.c:70-101 | takes the oldest byte off the contents, or says that there is none |
| RingBuf.RingBuffer.Elements | os/lib/ringbuf.c:109-113 | the number of bytes in the contents |
| RingBuf.RingBuffer.constructor | os/lib/ringbuf.h:89-95 | an empty buffer on the given storage |
| HeapMem.RoundUpIsLeastMultiple | os/lib/heapmem.c:76-83 | the masked sum is the least multiple of the alignment not below the size, and 0 when that does not fit a `size_t` |
| HeapMem.WrapIsDetected | os/lib/heapmem.c:563-568 | dividing the wrapped product by the element size gives the number of elements back if and only if the product did not wrap |
| HeapMem.Product | os/lib/heapmem.c:559-569 | refuses exactly an element size of 0 and products that do not fit a `size_t` |
| HeapMem.Zone.Alloc | os/lib/heapmem.c:311-351 | a new live object of at least the requested size, aligned, with every other object byte for byte as it was; it lies in the smallest sufficient chunk of the search window after defragmentation, the first of its size, and only if there is none at the end of the heap, which grows in no other case; null only if the size is 0 or too large or neither the chunks in the window nor the space behind the heap can hold it, and then no object changed; what had room before the call, in a chunk in the window with the unused chunks behind it or behind the heap, succeeds, and in the first case neither the heap's size nor its high-water mark goes up |
| HeapMem.Zone.Obtain | os/lib/heapmem.c:330-338 | where the chunk comes from: the smallest sufficient chunk of the window if there is one, the end of the heap otherwise, and what becomes of the chunks, the free list and the end of the heap |
| HeapSteps.RoomIsOneChunk | os/lib/heapmem.c:244-284 | if some chunk of the window and the unused chunks behind it have room before defragmentation, a chunk of the window has room after it |
| HeapMem.Zone.Free | os/lib/heapmem.c:379-404 | an object that is live ceases to be: the last chunk goes back to the space behind the heap, any other to the front of the free list, and there is room for an object of its size in that place; anything else is refused; no other object changes |
| HeapMem.Zone.FreeThenAlloc | os/lib/heapmem.c:311-404 | right after an object has been freed, a request of up to its size succeeds, and neither the heap's size nor its high-water mark ends up higher than before |
| HeapMem.Zone.Realloc | os/lib/heapmem.c:438-542 | on every path the object keeps its first min(old, new) bytes and all others are unchanged; an object that is large enough, or can grow where it is, stays there, and one that is larger than asked for by more than a header is cut; a null result for a non-zero size within the arena means that no place has room, and then the old object is still live and its bytes are as they were; a null pointer gets a new object just as from an allocation |
| HeapMem.Zone.Resize | os/lib/heapmem.c:484-541 | the same for a live object: shrinking and growing in place always succeed when they can, a move fails only for want of room, a shrink leaves a chunk of the size asked for, with the rest free, if that is more than a header, and in all cases the chunk exceeds the size by a header at most |
| HeapMem.Zone.Shrink | os/lib/heapmem.c:493-498 | an object is made smaller in place: the rest is freed if it is more than a header, and otherwise nothing changes |
| HeapMem.Zone.Enlarge | os/lib/heapmem.c:501-541 | an object is made larger: in place exactly if it can be, else by a move, else not at all |
| HeapMem.Zone.StretchLast | os/lib/heapmem.c:502-511 | the last chunk grows in place if and only if the arena has room |
| HeapMem.Zone.GrowInPlace | os/lib/heapmem.c:502-524 | succeeds if and only if the arena, for the last chunk, or the unused chunks behind it, for any other, have room; every object is left as it was up to this one's new bytes |
| HeapMem.Zone.Move | os/lib/heapmem.c:533-541 | the new object has the old one's bytes, the old one is gone, no other changed; or nothing changed, because no place has room; the new place is the one that an allocation picks, within the window if that had room |
| HeapMem.Zone.Calloc | os/lib/heapmem.c:559-575 | an object of the product's size, all zero, where an allocation puts it; null for a product that is 0, wraps or exceeds the arena, and otherwise only if no place has room for it, which is not so if there was room before the call |
| HeapMem.Zone.Stats | os/lib/heapmem.c:593-617 | live bytes + headers + available bytes are exactly the arena, live bytes and chunks are those of the live objects, the overhead is one header a chunk, no unused chunk is followed by another afterwards, and the coalescing on the way changes no object |
| HeapMem.Zone.ExtendSpace | os/lib/heapmem.c:152-166 | the heap grows by the size asked for if and only if that stays within the arena, and the high-water mark follows |
| HeapMem.Zone.FreeChunk | os/lib/heapmem.c:169-186 | a chunk at the end goes back to the free space behind the heap, any other becomes the head of the free list |
| HeapMem.Zone.RemoveFromFreeList | os/lib/heapmem.c:190-205 | unlinks one chunk from the doubly linked list, which keeps its order otherwise |
| HeapMem.Zone.SplitChunk | os/lib/heapmem.c:212-226 | a chunk is cut to the size wanted if a header and a byte are left over, and what is left over goes to the free list or, at the end, to the space behind the heap; every other chunk stays and every object keeps its bytes |
| HeapMem.Zone.CoalesceChunks | os/lib/heapmem.c:230-240 | a chunk absorbs exactly the unused chunks behind it, up to the next one in use or the end of the heap; all other chunks, and the order of the free list, stay |
| HeapMem.Zone.DefragChunks | os/lib/heapmem.c:244-255 | no object changes; what is left of the free list is in order; the chunks on it that are visited, which are all unless there are more than the limit, have no unused chunk behind them; every chunk that was in the search window lies, with all the unused chunks behind it, within one chunk that is in the window now |
| HeapMem.Zone.FindBestFit | os/lib/heapmem.c:265-284 | the smallest chunk that is large enough, and the first of its size, among the chunks of the free list that the search may look at |
| HeapMem.Zone.GetFreeChunk | os/lib/heapmem.c:259-294 | the smallest chunk that is large enough, and the first of its size, in the window after defragmentation, off the free list and cut to the size wanted if more than a header is left over, with the rest free and no other chunk changed; or null, with nothing else changed, if none in that window is large enough |
| HeapMem.Zone.ObjectsDisjoint | os/lib/heapmem.c:88-98 | two live objects never overlap, and lie within the used part of the arena |
| HeapMem.Zone.ChunksTileTheHeap | os/lib/heapmem.c:88-91 | every byte of the used heap belongs to exactly one chunk |
| HeapMem.Zone.FreeListReachesUnused | os/lib/heapmem.c:169-205 | following `next` from the head reaches exactly the chunks that are not in use, each once, and ends |
| HeapMem.Zone.constructor | os/lib/heapmem.c:123-130 | a zone with no objects satisfies the invariant |
| HeapMem.Zone.Store | os/lib/heapmem.c:94-98 | a caller that writes within a live object changes that object only and breaks no header |
| HeapLayout.MergeKeepsTiling | os/lib/heapmem.c:230-240 | two neighbouring chunks made one still tile the heap |
| HeapLayout.FreeEndIs | os/lib/heapmem.c:230-240 | the unused chunks behind a chunk end where the walk over them finds a chunk in use or the end of the heap |
| HeapLayout.CutKeepsTiling | os/lib/heapmem.c:212-226 | a chunk cut in two still tiles the heap, and its second part ends where the chunk did |
| HeapLayout.DropKeepsTiling | os/lib/heapmem.c:174-176 | without its last chunk the heap is tiled up to that chunk |
| HeapLayout.AppendKeepsTiling | os/lib/heapmem.c:331-338 | a chunk put at the end tiles the larger heap |
| HeapSteps.CutKeepsObjects | os/lib/heapmem.c:212-226 | cutting a chunk, with what is cut off freed or given back, keeps every object, and the first bytes of the one that is cut |
| HeapSteps.CoalescedFreeEnd | os/lib/heapmem.c:230-240 | absorbing the unused chunks behind one chunk does not move the end of the unused chunks behind any other |
| HeapSteps.CoveredByVisit | os/lib/heapmem.c:244-255 | once a chunk is visited, what it and the chunks visited before covered is covered still, wherever they have been absorbed |
| HeapLayout.UsageIsAligned | os/lib/heapmem.c:116-117 | with aligned chunk sizes the heap ends at an aligned address |
| HeapLayout.UnlinkKeepsList | os/lib/heapmem.c:190-205 | rewriting the two neighbours' links leaves a well-linked list without the chunk |
| HeapLayout.PushKeepsList | os/lib/heapmem.c:177-185 | so does putting a chunk before the head |
| HeapLayout.FollowVisitsAll | os/lib/heapmem.c:190-205 | n steps along `next` lead to the n-th chunk of the list, and the last to null |
| HeapLayout.MergeKeepsObjects | os/lib/heapmem.c:230-240 | absorbing an unused chunk keeps every object, and the first bytes of the one that grows |
| HeapLayout.OneMoreObject | os/lib/heapmem.c:339-350 | marking a chunk in use adds exactly one object |
| HeapLayout.OneObjectLess | os/lib/heapmem.c:392-403 | marking it unused takes exactly that one away |
| CborSession.WriteAndReadBack | os/lib/cbor.c:43-466 | what any balanced sequence of calls up to eight deep writes is read back as the items written, with no byte left |
| CborCalls.WriteCalls | os/lib/cbor.c:43-290 | any balanced sequence of write, open and close calls leaves exactly the recursive shortest encoding of its items and returns its length if it fits and no more than eight containers are open at once, and returns 0 otherwise |
| CborCalls.BalancedCallsWriteItems | os/lib/cbor.c:43-290 | a balanced sequence does to any writer what the calls for its items do, whichever call is used for an integer |
| CborCalls.PlainCallsDoTheSame | os/lib/cbor.c:90-184 | a signed call for a value that is not negative does what the unsigned call does, and an empty object does nothing |
| CborWriter.WriteSession | os/lib/cbor.c:43-290 | the calls for any list of items leave exactly their recursive shortest encoding and return its length if it fits and no more than eight containers are open at once, and return 0 otherwise |
| CborWriting.ItemsAreEncoded | os/lib/cbor.c:43-290 | writing items from the start gives the recursive encoding when it fits, and a broken writer when it does not |
| CborWriting.WriteItem | os/lib/cbor.c:168-290 | in any open container the calls for an item append its recursive encoding and count one object, or break the writer exactly if it does not fit |
| CborWriting.WriteItems | os/lib/cbor.c:168-290 | the same for a list of items |
| CborWriting.WriteContainer | os/lib/cbor.c:223-290 | an opening call, items and the closing call give a head with the right count, put in after the fact, and the items |
| CborWriting.TooDeep | os/lib/cbor.c:223-233 | an item that needs more open containers than are left breaks the writer |
| CborWriting.SomeTooDeep | os/lib/cbor.c:223-233 | so does a list with such an item |
| CborWriting.BrokenStaysBroken | os/lib/cbor.c:61-66 | no sequence of calls repairs a broken writer |
| CborWriter.Writer.WriteFirstByte | os/lib/cbor.c:77-87 | adds one byte and counts one object, or breaks a writer without room |
| CborWriter.Writer.WriteBytes | os/lib/cbor.c:89-103 | adds the bytes, or breaks the writer if they do not fit |
| CborWriter.Writer.Insert | os/lib/cbor.c:152-165 | the bytes behind the destination move up and the big-endian argument takes their place |
| CborWriter.Writer.InsertUnsigned | os/lib/cbor.c:116-166 | the first byte before the destination becomes the head of the value, the bytes behind it move up; broken exactly if the argument does not fit |
| CborWriter.Writer.WriteUnsigned | os/lib/cbor.c:168-173 | the shortest head of the value |
| CborWriter.Writer.WriteSigned | os/lib/cbor.c:175-184 | non-negative values as unsigned, others as -1 - value, each with the shortest head |
| CborWriter.Writer.WriteData | os/lib/cbor.c:186-193 | a byte string: head and bytes |
| CborWriter.Writer.WriteText | os/lib/cbor.c:195-202 | a text string: head and bytes |
| CborWriter.Writer.WriteNull | os/lib/cbor.c:204-208 | the simple value null |
| CborWriter.Writer.WriteUndefined | os/lib/cbor.c:210-214 | the simple value undefined |
| CborWriter.Writer.WriteBool | os/lib/cbor.c:216-221 | the simple value true or false |
| CborWriter.Writer.WriteObject | os/lib/cbor.c:105-114 | an object that comes encoded, counted as one |
| CborWriter.Writer.Open | os/lib/cbor.c:223-233 | one more container, or a broken writer at the ninth |
| CborWriter.Writer.Close | os/lib/cbor.c:235-240 | the container's head gets its value and the container is one object of the one around it |
| CborWriter.Writer.CloseData | os/lib/cbor.c:248-257 | the value is the number of bytes in the wrapper |
| CborWriter.Writer.CloseArray | os/lib/cbor.c:265-273 | the value is the number of objects |
| CborWriter.Writer.CloseMap | os/lib/cbor.c:281-290 | the value is half the number of objects; an odd number breaks the writer |
| CborWriter.Writer.EndWriter | os/lib/cbor.c:53-59 | the number of bytes written, or 0 for a broken writer or one with open containers |
| CborReading.DecodeUndoesEncode | os/lib/cbor.c:300-466 | reading the encoding of an item, with anything behind it, gives the item back and stops right behind it |
| CborReading.DecodeManyUndoesEncodeAll | os/lib/cbor.c:300-466 | the same for lists of items |
| CborReading.HeadReadsBack | os/lib/cbor.c:315-361 | a shortest head is read back as its major type and value for every 64-bit value |
| CborReading.HeadIsStandard | os/lib/cbor.c:116-166 | a head is three bits of major type and five bits with the value or with the number of bytes, most significant first, that hold it, as few as can be: sections 3 and 4.2.1 of RFC 8949 |
| CborEncoding.SmallestItems | os/lib/cbor.c:168-290 | examples of the appendix of RFC 8949: items without an argument or with 0, one of each type |
| CborEncoding.SmallContainers | os/lib/cbor.c:168-290 | strings, and containers whose heads hold the number of bytes, elements or pairs |
| CborReading.SignedReadsBack | os/lib/cbor.c:372-392 | the head of a number of either sign is read back as that number exactly if it fits an int64_t, with anything behind it left to read, and refused otherwise |
| CborReading.OthersAreNotSigned | os/lib/cbor.c:372-392 | the head of any other item is refused |
| CborReading.HeadIsRead | os/lib/cbor.c:315-361 | on any input a head is read exactly if its additional information is below 28 and the bytes that follow are all there, as what these bytes say |
| CborReading.ReadsThatFail | os/lib/cbor.c:363-448 | a string that is not all there, a count beyond SIZE_MAX - 1 and an item of another type are refused |
| CborReading.SizeOfShortestHead | os/lib/cbor.c:325-360 | for a head that the writer wrote, the size returned is the smallest that holds the value |
| CborReader.Reader.PeekNext | os/lib/cbor.c:300-307 | the major type of the next byte, or none |
| CborReader.Reader.ReadArgument | os/lib/cbor.c:315-361 | the argument of the head, read as the standard lays it out, with the size that is returned for it; on any input position plus remaining size stays the same |
| CborReader.Reader.ReadUnsigned | os/lib/cbor.c:363-370 | an unsigned value and its size, or a failure for any other type |
| CborReader.Reader.ReadSigned | os/lib/cbor.c:372-392 | a signed value within 64 bits and its size, or a failure |
| CborReader.Reader.ReadString | os/lib/cbor.c:394-408 | the bytes of a string that is wholly there, or a failure |
| CborReader.Reader.ReadSimple | os/lib/cbor.c:428-436 | a simple value, or a failure |
| CborReader.Reader.ReadCount | os/lib/cbor.c:438-448 | the number of elements of an array or entries of a map, or a failure |
| CborReader.Reader.ReadItem | os/lib/cbor.c:300-466 | on arbitrary input, peeking and reading yields what the recursive decoder yields, and fails only where it fails |
| CborReader.Reader.EndReader | os/lib/cbor.c:309-313 | true exactly when no byte is left |
| List.KeyList.Remove | os/lib/list.c:133-157 | the list without the item, in order, and no change if it is not there |
| List.KeyList.Add | os/lib/list.c:70-87 | the item is last, and nowhere else |
| List.KeyList.Push | os/lib/list.c:89-97 | the item is first, and nowhere else |
| List.KeyList.Pop | os/lib/list.c:121-131 | the first item goes and is returned |
| List.KeyList.Chop | os/lib/list.c:99-119 | the last item goes and is returned |
| List.KeyList.Insert | os/lib/list.c:172-182 | the item is right behind the given one, or first, and nowhere else; behind itself it is lost from the list and points at itself |
| List.KeyList.Tail | os/lib/list.c:56-68 | the last item, or null |
| List.KeyList.Length | os/lib/list.c:159-170 | the number of items |
| List.KeyList.Contains | os/lib/list.c:184-194 | true exactly for items of the list |
| List.DropKeepsChain | os/lib/list.c:133-157 | pointing past a node leaves a chain of the other nodes |
| List.InsertKeepsChain | os/lib/list.c:172-182 | pointing at a new node and from it onwards makes a chain with that node in place |
| Memb.Pool.Alloc | os/lib/memb.c:58-75 | a free block becomes used, and none is returned exactly if there is none |
| Memb.Pool.Release | os/lib/memb.c:77-98 | a used block of the pool becomes free; everything else is refused without effect |
| Memb.Pool.NumFree | os/lib/memb.c:107-120 | the number of free blocks |
| Memb.UsedAndFree | os/lib/memb.c:107-120 | used and free blocks are disjoint and together the pool |
| NbrTable.Tables.AddLladdr | os/net/nbr-table.c:392-446 | the neighbour gets a zeroed item in this table and, if it is new, the last place on the list; no other table changes, but for the eviction, when the pool is full, of a neighbour that is locked by no table and used by the fewest, the first such in list order; exactly the registered tables that used it and have a callback are called with its slot, in table order and once each, and all other neighbours keep their slots; if all are locked, nothing changes and null is returned |
| NbrTable.Tables.SelectForRemoval | os/net/nbr-table.c:238-265 | an unlocked neighbour with the least number of using tables, the earliest of the list on ties, or none exactly if all are locked |
| NbrTable.Tables.EntryIsAllowed | os/net/nbr-table.c:267-292 | an entry is refused exactly if room is needed and every neighbour is locked, and a victim is named exactly if room is needed and there is one |
| NbrTable.Tables.Enlist | os/net/nbr-table.c:301-321 | the victim leaves every table, exactly the tables that used it and have a callback are called with its slot, its slot goes to the new neighbour, and no table shows the new neighbour yet |
| NbrTable.Tables.RemoveKey | os/net/nbr-table.c:168-190 | the key leaves the list and both bitmaps, the address is unknown, and exactly the registered tables that used it and have a callback are called with its slot, in table order and once each |
| NbrTable.Tables.Notify | os/net/nbr-table.c:172-180 | exactly the registered tables that use the neighbour and have a callback are called with its slot, in table order and once each |
| NbrTable.Tables.IndexFromLladdr | os/net/nbr-table.c:119-136 | the slot of a known address, else -1 |
| NbrTable.Tables.GetFromLladdr | os/net/nbr-table.c:448-454 | the item that this table keeps for the address, and null exactly if it keeps none |
| NbrTable.Tables.Iterate | os/net/nbr-table.c:364-389 | head and next visit exactly the items of this table, each once, in list order |
| NbrTable.Tables.Head | os/net/nbr-table.c:364-376 | the first listed neighbour that this table uses |
| NbrTable.Tables.Next | os/net/nbr-table.c:378-389 | the next listed neighbour that this table uses |
| NbrTable.Tables.Remove | os/net/nbr-table.c:456-463 | the item leaves this table only, and its lock with it |
| NbrTable.Tables.SetLock | os/net/nbr-table.c:465-485 | this table's lock on this neighbour is set or cleared, and no other |
| NbrTable.Tables.StoreItem | os/net/nbr-table.c:84-88 | content stored in an item is seen in that entry of that table and in no other |
| NbrTable.Tables.Clear | os/net/nbr-table.c:495-503 | all tables are empty and all blocks free, and for every listed neighbour, in list order, exactly the registered tables that used it and have a callback are called with its slot, in table order and once each |
| NbrState.AllOthersAreNoticed | os/net/nbr-table.c:168-190 | removing one neighbour does not change what the tables are told about the others |
| NbrState.NoticesAre | os/net/nbr-table.c:172-180 | the calls for a neighbour go to a table exactly if it is registered, has a callback and uses the neighbour, and the tables are strictly increasing |
| NbrState.AllNoticesAre | os/net/nbr-table.c:495-503 | the calls for all listed neighbours: for each exactly those, key by key in list order |
| NbrTable.Tables.Zeroed | os/net/nbr-table.c:438-440 | an item of the size the table was registered with, all zero |
| NbrTable.Tables.Register | os/net/nbr-table.c:324-351 | a table keeps its number or gets the next, and is refused exactly when all numbers are taken |
| NbrTable.Tables.UsedCount | os/net/nbr-table.c:205-221 | shifting out the bitmap counts the tables that use the neighbour |
| NbrTable.Tables.GetWorst | os/net/nbr-table.c:223-227 | the second address exactly if fewer tables use it |
| NbrTable.Tables.AddressesDistinct | os/net/nbr-table.c:393-446 | no two keys on the list have the same address |
| NbrTable.Tables.UnlistedIsClean | os/net/nbr-table.c:168-190 | the keys on the list are exactly the used blocks, and blocks off the list have no bit in either bitmap |
| NbrTable.Tables.TableIsUsing | os/net/nbr-table.c:364-389 | the abstract table has exactly the addresses of the listed neighbours whose bit is set |
| NbrTable.Tables.constructor | os/net/nbr-table.c:59-71 | all tables start empty |
| NbrState.BitmapCounts | os/net/nbr-table.c:205-221 | the bits of a neighbour are as many as the tables that use it, and none exactly if no table does |
| NbrState.CountIsCardinality | os/net/nbr-table.c:210-219 | the shift-and-test count is the number of set bits |
| NbrState.BitOfSet | os/net/nbr-table.c:157-160 | setting a table's bit changes no other table's |
| NbrState.BitOfClear | os/net/nbr-table.c:157-162 | neither does clearing it |
| NbrState.ReuseKeepsTable | os/net/nbr-table.c:301-321 | a table's entries survive that the slot of a neighbour it does not use goes to another address |
| Sha256Block.Transform | os/lib/sha-256.c:165-222 | is the compression function of FIPS 180-4, section 6.2.2, for every state and block |
| Sha256Block.ChoiceAndMajority | os/lib/sha-256.c:128-129 | the rewritten Ch and Maj are those of section 4.1.2 |
| Sha256Block.SumsAgree | os/lib/sha-256.c:138-141 | the round's sum in its own order is T1 |
| Sha256Block.RotatedRound | os/lib/sha-256.c:138-149 | a round that rewrites two rotating registers is the round that shifts all eight variables |
| Sha256Block.RegistersRotate | os/lib/sha-256.c:144-149 | from round to round every variable moves to the register of its neighbour, and no two share one |
| Sha256Block.SixteenRounds | os/lib/sha-256.c:180-197 | sixteen such rounds are sixteen rounds, and the registers are back in place |
| Sha256Block.SixteenWords | os/lib/sha-256.c:200-215 | the message schedule is extended by the words of section 6.2.2 |
| Sha256Constants.ConstantsAreCubeRoots | os/lib/sha-256.c:108-125 | each of the 64 round constants is the first 32 bits of the fractional part of the cube root of its prime, section 4.2.2 |
| Sha256Constants.InitialStateIsSquareRoots | os/lib/sha-256.c:265-272 | each word of the initial hash value is the first 32 bits of the fractional part of the square root of its prime, section 5.3.3 |
| Sha256Constants.SievedIsPrime | os/lib/sha-256.c:108-125 | below 361 the primes are what the primes below 19 leave over |
| Sha256Example.DigestOfAbc | os/lib/sha-256.c:165-352 | the digest of "abc" is the published one |
| Sha256.Hasher.Update | os/lib/sha-256.c:276-313 | the message grows by the piece, with less than a block in the buffer; a bit count that was exact stays so if and only if the piece's bits fit a `size_t` |
| Sha256.Hasher.Pad | os/lib/sha-256.c:225-254 | the state becomes that of the message with the padding of section 5.1.1, in one block or two |
| Sha256.Hasher.Finalize | os/lib/sha-256.c:319-331 | with an exact bit count the digest is the standard's, and state and buffer are wiped |
| Sha256.Hasher.Hash | os/lib/sha-256.c:345-352 | the digest of the data |
| Sha256.Hasher.Init | os/lib/sha-256.c:257-273 | the session of the empty message |
| Sha256.Hasher.CreateCheckpoint | os/lib/sha-256.c:333-337 | the checkpoint stands for the message so far |
| Sha256.Hasher.RestoreCheckpoint | os/lib/sha-256.c:339-343 | a checkpoint that stands for a message puts the session where that message left it, outer HMAC padding included |
| Sha256.DigestOfPieces | os/lib/sha-256.c:257-331 | however a message is split into pieces, the digest is that of the whole with the bits that were counted, and the standard's if every piece is countable |
| Sha256.DigestWithABreak | os/lib/sha-256.c:257-343 | a session that is saved, followed by a whole other session, and restored yields the digest it would have, and so does the other |
| Sha256.CountBits | os/lib/sha-256.c:281-285 | the counted bits are right if and only if `size_t` has 64 bits or the piece has fewer than 2^29 bytes |
| Sha256.CountIsRight | os/lib/sha-256.c:281-285 | for any split of a message of fewer than 2^61 bytes the bit count is right if and only if every piece is countable |
| Sha256.LongPieceIsNotCounted | os/lib/sha-256.c:281-285 | 2^29 bytes in a 32-bit `size_t` count as none |
| Sha256.PaddedInBlocks | os/lib/sha-256.c:235-253 | the standard's padded message is the whole blocks and then one block or two, by whether 56 bytes are filled |
| Sha256.PaddingWraps | os/lib/sha-256.c:249-250 | a 64-bit bit count pads like the unbounded one |
| Sha256.BitCountInHalves | os/lib/sha-256.c:72-77 | two big-endian halves are the big-endian number |
| Hmac.HmacInit | os/lib/sha-256.c:354-377 | a key of any length: the inner block is hashed and the outer one kept, with keys over a block hashed first |
| Hmac.HmacUpdate | os/lib/sha-256.c:379-383 | the text under the code grows by the data |
| Hmac.HmacFinish | os/lib/sha-256.c:385-394 | the HMAC of RFC 2104, section 2, of the text; the outer padding is wiped |
| Hmac.HmacAtOnce | os/lib/sha-256.c:396-404 | the HMAC of the data |
| Hmac.HmacOfPieces | os/lib/sha-256.c:354-394 | the same code for every split of the text |
| Hmac.HmacWithoutKey | os/lib/sha-256.c:366-373 | without a key the inner padding is 64 times 0x36 and the outer 64 times 0x5c |
| Hmac.MaskKey | os/lib/sha-256.c:366-373 | the two loops lay the zero-padded key over both paddings |
| Hmac.KeysThatCountTheSame | os/lib/sha-256.c:354-373 | a key of up to a block counts as with the zeros that fill the block, and a longer one as its digest |
| Hmac.HkdfExtract | os/lib/sha-256.c:406-412 | HKDF-Extract, section 2.2 of RFC 5869 |
| Hmac.NoSaltIsZeroSalt | os/lib/sha-256.c:406-412 | a missing salt counts as a digest's length of zeros, as that section wants |
| Hmac.ExpandRound | os/lib/sha-256.c:428-434 | one round turns T(i - 1) into T(i) |
| Hmac.HkdfExpand | os/lib/sha-256.c:414-440 | HKDF-Expand, section 2.3 of RFC 5869, for up to 254 blocks; bytes behind the output keep their value |
| Hmac.ExpandTwoBlocks | os/lib/sha-256.c:428-434 | the first block is over the info and 1, the second over the first, the info and 2 |
| Hmac.ExpansionEnds | os/lib/sha-256.c:423-427 | the loop ends if and only if the output has at most 254 blocks |
| Hmac.Hkdf | os/lib/sha-256.c:442-452 | extract, then expand |
| Aes128.Aes.Encrypt | os/lib/aes-128.c:118-186 | after the key was set, the cipher of FIPS 197, section 5.1, in place |
| Aes128.Aes.SetKey | os/lib/aes-128.c:96-116 | the eleven round keys are those of the key expansion of section 5.2 |
| Aes128.CipherIsInvertible | os/lib/aes-128.c:118-186 | the inverse cipher of section 5.3 takes every encrypted block back |
| Aes128.CipherIsInjective | os/lib/aes-128.c:118-186 | under one key different blocks are encrypted differently |
| Aes128.ShortcutIsProduct | os/lib/aes-128.c:158-178 | a column's sum and one doubling a byte give the product with the matrix of equation (5.6) |
| Aes128.MixState | os/lib/aes-128.c:155-179 | the loop over four columns is MixColumns |
| Aes128.ShiftState | os/lib/aes-128.c:135-153 | moving single bytes is ShiftRows |
| Aes128.SubState | os/lib/aes-128.c:130-133 | the loop over sixteen bytes is SubBytes |
| Aes128.Aes.AddRoundKey | os/lib/aes-128.c:181-184 | a round key is added to the state |
| Aes128.GaloisMul2IsTimes2 | os/lib/aes-128.c:89-94 | the branch-free doubling is multiplication by {02} |
| Aes128.SboxIsInvertible | os/lib/aes-128.c:51-84 | the table is a permutation of the bytes |
| AesSbox.SboxIsStandard | os/lib/aes-128.c:51-84 | each entry of the table is the affine map of FIPS 197, section 5.1.1, of the inverse in GF(2^8), with 0 for that of 0 |
| AesSbox.ProductWithInverse | os/lib/aes-128.c:51-84 | an element times what the affine map takes to its entry is 1 |
| Aes128.UnmixedIsMixed | os/lib/aes-128.c:155-179 | the inverse matrix undoes the matrix |
| Aes128.RoundIsInvertible | os/lib/aes-128.c:129-185 | a round can be undone with its round key |
| Aes128.NextKeyByte | os/lib/aes-128.c:111-113 | bytes 4 to 15 of a round key are the expansion's words |
| Aes128.FirstBytesOfKey | os/lib/aes-128.c:106-110 | bytes 0 to 3 are, with the rotated and substituted last word and the round constant |
| Aes128Example.CiphertextOfExample | os/lib/aes-128.c:96-186 | the example of FIPS 197, appendix C.1, round by round |
| Aes128Example.RoundConstants | os/lib/aes-128.c:103-114 | the round constants of table 5 |
| CcmStar.Aead | os/lib/ccm-star.c:150-176 | forward and reverse, with the MIC in another buffer or anywhere apart from the message in the same one: the message becomes the message xor the key stream, the MIC is that of the plaintext, and no other byte changes; an invalid MIC length leaves everything as it was |
| CcmStar.ThereAndBack | os/lib/ccm-star.c:150-176 | with the MIC right behind the message, the reverse direction gives the message back and the same MIC, for all messages up to 0xffff bytes; up to 0xfeff bytes of additional data the MIC is that of RFC 3610, section 2.2 |
| CcmStar.ComputeMic | os/lib/ccm-star.c:85-132 | CBC-MAC over first block, padded data and padded message, xored with S_0 |
| CcmStar.AbsorbData | os/lib/ccm-star.c:96-115 | the length and the first 14 bytes, then whole blocks, are the padded data in the chain |
| CcmStar.Absorb | os/lib/ccm-star.c:106-127 | xoring in what is there of each block is chaining the padded blocks |
| CcmStar.Ctr | os/lib/ccm-star.c:134-142 | the message xor S_1 | S_2 | ..., with a 16-bit counter that does not wrap; bytes behind the message keep their value |
| CcmStar.CtrStep | os/lib/ccm-star.c:69-83 | one block, or what is left of one, is xored with S_counter |
| CcmStar.IvAgrees | os/lib/ccm-star.c:56-66 | flags, nonce and big-endian counter |
| CcmStar.FlagsAgree | os/lib/ccm-star.c:48-50 | the flags put together with bit operations are 64 * Adata + 8 * M' + L' |
| CcmStar.BlocksOfPacketVector | os/lib/ccm-star.c:48-132 | first block, counter block and authenticated blocks of packet vector 1 in section 8 of RFC 3610 |
| CcmStar.ShortestMessages | os/lib/ccm-star.c:69-142 | the MIC of nothing is the encrypted first block xored with S_0, and a message of up to a block is xored with S_1 |
| CcmStar.CryptTwice | os/lib/ccm-star.c:134-142 | encrypting twice under a nonce gives the message back |
| CcmStar.CounterBlocksDiffer | os/lib/ccm-star.c:134-142 | no two counter blocks of a message are equal, none is that of the MIC (counter 0) and none is the first block of the MIC |
| CcmStar.KeyStreamNeverRepeats | os/lib/ccm-star.c:134-142 | so under AES no two blocks of key stream are equal |
| CcmStar.TwoByteLengths | os/lib/ccm-star.c:97-98 | two bytes of length are what the RFC wants if and only if there are fewer than 0xff00 bytes |
| CcmStar.StandardUpToFeff | os/lib/ccm-star.c:85-132 | for every one-to-one block function, nonce and message, the MICs of sixteen bytes over all data of a given length are the RFC's if and only if the length is below 0xff00 |
| CcmStar.LongDataIsNotStandard | os/lib/ccm-star.c:85-132 | so under every AES key there is data whose MIC is not the RFC's at exactly the lengths from 0xff00 on |
| CcmStar.OneEndDiffers | os/lib/ccm-star.c:106-127 | of two strings that end in different places of a block, with one more byte each that is the same, the chains differ for one value of that byte |
| TrickleImax.MaxImax | os/lib/trickle-timer.c:97-153 | the generic loop finds the exponent whose doubling is the first over half the clock's range, for 16 and 32 bits |
| TrickleImax.LargestImax | os/lib/trickle-timer.c:353-366 | that exponent is the largest that fits, and all smaller ones fit |
| TrickleImax.BadPairsAreTooLong | os/lib/trickle-timer.h:322-323 | the shift and comparison refuse exactly the pairs with Imin * 2^Imax over half the range |
| TrickleTimer.Timer.Config | os/lib/trickle-timer.c:333-380 | succeeds exactly for 1 < Imin < half the range and Imax, k > 0; Imax is kept if it fits and else cut to the largest that does; the cached maximum does not wrap; a ctimer that is set stays set |
| TrickleTimer.Timer.Set | os/lib/trickle-timer.c:382-414 | the timer runs from now with Imin <= I <= Imax, length and point being those of the two draws |
| TrickleTimer.Timer.NewInterval | os/lib/trickle-timer.c:285-301 | an interval begins now, with the drawn point in its second half and no messages heard |
| TrickleTimer.Timer.Inconsistency | os/lib/trickle-timer.c:317-331 | resets to Imin, and does nothing at Imin |
| TrickleTimer.Timer.Consistency | os/lib/trickle-timer.c:305-315 | one more message is heard; the saturating counter is enough for the comparison with k |
| TrickleTimer.Timer.FireNow | os/lib/trickle-timer.c:258-281 | transmission is allowed exactly if fewer than k messages were heard in this interval; then the interval's end is waited for |
| TrickleTimer.Timer.ScheduleForEnd | os/lib/trickle-timer.c:168-187 | the ctimer expires at the interval's end, or at once if that is past, unless it was missed by more than half the range |
| TrickleTimer.Timer.IntervalEnds | os/lib/trickle-timer.c:191-254 | the next interval starts where the last one ended, however late the call is, and is twice as long up to the maximum |
| TrickleTimer.GetT | os/lib/trickle-timer.c:157-166 | a point in [floor(I / 2), I) |
| TrickleTimer.GetTReaches | os/lib/trickle-timer.c:157-166 | the points that some draw gives are exactly those in [floor(I / 2), 2 * floor(I / 2)) |
| TrickleTimer.FirstLengthReaches | os/lib/trickle-timer.c:397-399 | the lengths that some draw gives are exactly those from Imin to Imax |
| TrickleTimer.DelayIsRight | os/lib/trickle-timer.c:172-184 | the wrapped difference gives the right delay if and only if the target is not missed by more than half the range, whole turns aside |
| TrickleTimer.RunKeepsBounds | os/lib/trickle-timer.c:168-331 | in all states of all runs Imin <= I <= Imax, the point is in the second half and no callback is early |
| TrickleTimer.StepKeepsSound | os/lib/trickle-timer.c:168-331 | each event keeps that |
| TrickleTimer.IntervalsTile | os/lib/trickle-timer.c:191-254 | between resets the intervals lie end to end, and after n ends the length is min(I * 2^n, Imin * 2^Imax) |
| TrickleTimer.DoublingsAfterReset | os/lib/trickle-timer.c:191-254 | n interval ends after a reset the length is Imin * 2^min(n, Imax) |
| TrickleTimer.PunctualStaysOnSchedule | os/lib/trickle-timer.c:168-254 | callbacks that come when due come at the chosen points and at the ends |
| Slip.Write | os/dev/slip.c:91-113 | the escaped packet between two END bytes |
| Slip.Driver.InputByte | os/dev/slip.c:263-325 | three wrapping indices and a buffer do what the receiver on two byte strings does, in every state, also when full or after a bad escape |
| Slip.Driver.AddCharacter | os/dev/slip.c:289-324 | the same for its part from the label on |
| Slip.Driver.Poll | os/dev/slip.c:122-239 | given room for what the packet needs, the output is the decoded packet, across the end of the buffer too, exactly the bytes it needs are stored to, and the packet is removed and the next one looked for, as for the member below |
| Slip.Driver.DecodeSpan | os/dev/slip.c:138-158 | one decoding loop carries length and open escape over to the next, and stores to no byte behind what it decodes |
| Slip.Driver.RemovePacket | os/dev/slip.c:206-234 | the packet and its END go, what comes before another END is the next packet, and another poll is asked for exactly if there is one; if its END was taken away, the rest of the buffer counts as received |
| Slip.Driver.constructor | os/dev/slip.c:115-120 | an empty receiver |
| Slip.PassPacket | os/dev/slip.c:91-325 | a packet that fits goes through an idle receiver unchanged from any position in the buffer, to an output buffer of exactly the length passed, and leaves the receiver idle |
| Slip.ThereAndBack | os/dev/slip.c:91-325 | packets sent and polled one by one arrive in order and unchanged in an output buffer of the length passed |
| Slip.PacketIsHandedOver | os/dev/slip.c:135-204 | what a poll hands over, for every packet length and every place where the buffer wraps |
| Slip.PollStoresPastBlen | os/dev/slip.c:135-204 | a poll stores to the byte behind blen bytes of output if and only if the packet is longer than blen, wherever it lies |
| Slip.LongerPacketFits | os/dev/slip.c:52-53 | the receive buffer, 16 bytes larger than the output buffer, holds such a packet |
| SlipCoding.DecodeUndoesEscape | os/dev/slip.c:138-158 | decoding an escaped packet gives the packet, with no escape left open |
| SlipCoding.FrameOfSpecialBytes | os/dev/slip.c:38-41 | a frame with each special byte, in the codes of RFC 1055 |
| SlipCoding.FrameBecomesPacket | os/dev/slip.c:263-325 | a frame to an idle receiver wakes the process with its last byte only, waits as one packet, and is gone after a poll |
| SlipCoding.PacketsArrive | os/dev/slip.c:91-325 | any sequence of packets that fit arrives as sent if each is polled before the next |
| SlipCoding.FrameAfterRubbish | os/dev/slip.c:263-325 | after any input that left a receiver in rubbish with no packet waiting, the next frame that fits arrives as sent: the END that opens it ends the rubbish |
| SlipCoding.BadEscapeTakesEnd | os/dev/slip.c:206-285 | a bad escape behind any packet that waits takes its END away, and after the poll exactly what the rest of the buffer held counts as received |
| SlipCoding.SecondPacketNeedsPoll | os/dev/slip.c:206-325 | for any two packets and any number of bytes of the second that come in before the first is polled: the first is handed over, and the second arrives as sent if and only if that number is 0; else it comes with an END before it, and, if its frame was complete, only with one more END, which comes with it |

## Left out

- The `HEAPMEM_DEBUG` fields, the NULL zone and the registration of several zones: a zone is one class instance.
- HeapMem.Zone.Free: of a pointer into the heap that it never returned is not modelled; what lies where its header would be is arbitrary.
- HeapMem.Zone.Realloc: the same.
- `nbr_table_count_entries`, the periodic print and the replacements of the eviction policy by RPL: the defaults of nbr-table.c are modelled.
- Callbacks of the neighbour table and of the trickle timer that call back into the same table or timer, but for one that stops its timer.
- Lists that share nodes.
- `memb_inmemb`, and pointers into the middle of a block: a block is named by its index.
- CborSession.WriteAndReadBack: objects that come encoded already are not read back, since nothing is known of their structure.
- CborReader.Reader.ReadItem: the recursion over nested items is a user's; the library only reads one head or string at a time.
- Hmac.HmacInit: with a 32-bit `size_t` only for keys shorter than 2^29 bytes, since the hash of a longer one is not the standard's; the same holds for the text of Hmac.HmacUpdate and the other members about HMAC and HKDF.
- Hmac.HkdfExpand: only up to 254 blocks, since beyond that the loop of the source does not end.
- The little-endian variants of the byte-order helpers in sha-256.c, which use the compiler's byte swaps.
- The cipher of CCM* is any function on blocks, with AES as one instance; its key is set outside of the model.
- What a ctimer that is still set does after its timer was configured again. The shift of an Imax of 31 or more, which C leaves undefined, is taken to give 0.
- Trickle with a 64-bit clock, the hand-written 16-bit and 32-bit searches for Imax, and the variant without drift compensation. Clock readings within one call are the same.
- Null timers and callbacks.
- Slip.Write: only up to 0xffff bytes, since the 16-bit index of the source never reaches a greater length.
- SLIP statistics counters, and reading the line: bytes written are the bytes received.
- The radio drivers, the network stack above the neighbour table, logging, and the EASE module, whose sources are not part of this model.
