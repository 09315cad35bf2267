/** The heap allocator of os/lib/heapmem.c, run on one zone. */
module HeapMem {
  import opened Bits
  import opened HeapLayout
  import opened HeapSteps

  /** `align_size` for an alignment of 2^k and a `size_t` of w bits. */
  function RoundUp(size: nat, k: nat, w: nat): nat
    requires k <= w
  {
    Pow2Monotone(k, w);
    if size > Pow2(w) - 1 - (Pow2(k) - 1) then 0
    else And(size + (Pow2(k) - 1), Pow2(w) - Pow2(k))
  }

  /** It is the least multiple of the alignment that is not below `size`, unless that does not fit
      a `size_t`: then it is 0. */
  lemma RoundUpIsLeastMultiple(size: nat, k: nat, w: nat)
    requires k <= w && size < Pow2(w)
    ensures Multiple(RoundUp(size, k, w), Pow2(k))
    ensures size + Pow2(k) > Pow2(w) ==> RoundUp(size, k, w) == 0
    ensures size + Pow2(k) <= Pow2(w) ==> size <= RoundUp(size, k, w) < size + Pow2(k)
    ensures size + Pow2(k) <= Pow2(w) && Multiple(size, Pow2(k)) ==> RoundUp(size, k, w) == size
  {
    hide And, Pow2;
    var a := Pow2(k);
    if size + a <= Pow2(w) {
      var x := size + (a - 1);
      AndHighMask(x, k, w);
      DivModParts(x, a);
      ModIsUnique(x - x % a, a, x / a, 0);
      if Multiple(size, a) {
        DivModParts(size, a);
        ModIsUnique(x, a, size / a, a - 1);
      }
    } else {
      Pow2Monotone(k, w);
      ModIsUnique(0, a, 0, 0);
    }
  }

  /** All chunks but one are as they were. */
  ghost predicate OthersStay(tiles': Tiles, tiles: Tiles, a: nat) {
    forall x :: x in tiles && x != a ==> x in tiles' && tiles'[x] == tiles[x]
  }

  /** Rounding up does not go past another multiple of the alignment. */
  lemma RoundsUpWithin(size: nat, limit: nat, k: nat, w: nat)
    requires k <= w && size <= limit && limit + Pow2(k) <= Pow2(w) && Multiple(limit, Pow2(k))
    ensures RoundUp(size, k, w) <= limit
  {
    hide RoundUp, Pow2;
    var r, a := RoundUp(size, k, w), Pow2(k);
    RoundUpIsLeastMultiple(size, k, w);
    MultiplesAdd(r, limit, a);
    if r > limit {
      ModIsUnique(r - limit, a, 0, r - limit);
    }
  }

  lemma NothingCutOff(objects: map<nat, seq<byte>>, tiles: Tiles, a: nat, h: nat)
    ensures SameBut(objects, objects, a + h) && OthersStay(tiles, tiles, a)
  {
  }

  lemma CutParts(tiles': Tiles, free': seq<nat>, usage': nat, tiles: Tiles, free: seq<nat>, usage: nat, h: nat, a: nat,
                 offset: nat)
    requires a in tiles && 0 < offset && offset + h < tiles[a] && a + h + offset !in tiles && a !in free
    requires CutShape(tiles', free', usage', tiles, free, usage, h, a, offset) && End(tiles, a, h) <= usage
    ensures var cut := Cut(tiles, a, offset, h); tiles' == cut || tiles' == cut - {a + h + offset}
    ensures a in tiles' && tiles'[a] == offset && a !in free' && usage' <= usage && OthersStay(tiles', tiles, a)
  {
  }

  lemma CutFlagsAt(hs': Headers, hs: Headers, tiles': Tiles, tiles: Tiles, a: nat)
    requires CutFlags(hs', hs, tiles', tiles) && a in tiles' && a in tiles && a in hs
    ensures a in hs' && hs'[a].inUse == hs[a].inUse
  {
  }

  /** The chunk behind `a` has been absorbed by it. */
  lemma AbsorbedOne(tiles2: Tiles, hs2: Headers, tiles1: Tiles, hs1: Headers, tiles: Tiles, hs: Headers, free: seq<nat>,
                    usage: nat, a: nat, h: nat)
    requires Tiling(tiles1, usage, h) && a in tiles1 && End(tiles1, a, h) in tiles1 && HaveHeaders(tiles1, hs1)
    requires Coalesced(tiles1, hs1, tiles, hs, a, h) && !hs1[End(tiles1, a, h)].inUse
    requires tiles2 == Merged(tiles1, a, h) && FlagsStay(hs2, hs1, tiles1)
    ensures Coalesced(tiles2, hs2, tiles, hs, a, h)
    ensures Among(Among(free, tiles1.Keys), tiles2.Keys) == Among(free, tiles2.Keys)
    ensures End(tiles2, a, h) == End(tiles1, a, h) + h + tiles1[End(tiles1, a, h)]
  {
    hide Tiling, Coalesced, Merged, Among;
    MergedKeys(tiles1, h, a, usage);
    OneMoreCoalesced(tiles2, hs2, tiles1, hs1, tiles, hs, usage, a, h);
    AmongTwice(free, tiles1.Keys, tiles2.Keys);
  }

  lemma AbsorbedSize(tiles: Tiles, h: nat, hs: Headers, hs1: Headers, hs2: Headers, a: nat, b: nat)
    requires a != b && b in tiles && SizesMatch(tiles, hs) && TagsStay(hs2, hs1, tiles)
    requires a in hs && b in hs && HeaderSet(hs1, hs, tiles, a, hs[a].(size := hs[a].size + h + hs[b].size))
    ensures b in hs2 && hs2[b].size == tiles[b]
  {
  }

  lemma AlignedChunk(tiles: Tiles, a: nat, alignment: nat)
    requires alignment > 0 && AlignedTiles(tiles, alignment) && a in tiles
    ensures Multiple(a, alignment) && Multiple(tiles[a], alignment)
  {
  }

  lemma SameKeys(tiles: Tiles, a: nat, size: nat, hs: Headers)
    requires a in tiles && HaveHeaders(tiles, hs)
    ensures HaveHeaders(tiles[a := size], hs)
  {
  }

  lemma ListIsAmong(free: seq<nat>, tiles: Tiles)
    requires ListOfTiles(free, tiles)
    ensures free == Among(free, tiles.Keys)
  {
    AllAmong(free, tiles.Keys);
  }

  lemma CoalescedChunk(tiles': Tiles, hs': Headers, tiles: Tiles, hs: Headers, a: nat, h: nat)
    requires a in tiles' && Coalesced(tiles', hs', tiles, hs, a, h)
    ensures a in hs' && a in hs && hs'[a].inUse == hs[a].inUse
  {
  }

  lemma DistinctOnList(free: seq<nat>, hs: Headers, head: Link)
    requires FreeList(free, hs, head)
    ensures forall i, j :: 0 <= i < j < |free| ==> free[i] != free[j]
  {
  }

  lemma FlagStays(hs': Headers, hs: Headers, tiles: Tiles, a: nat)
    requires FlagsStay(hs', hs, tiles) && a in tiles
    ensures a in hs && a in hs' && hs'[a].inUse == hs[a].inUse
  {
  }

  datatype Statistics = Statistics(live: nat, overhead: nat, available: nat,
                                   heapUsage: nat, maxHeapUsage: nat, chunks: nat)

  lemma FirstAreOnList(list: seq<nat>, a: nat)
    requires a in FirstOf(list)
    ensures a in list
  {
  }

  /** Dividing the wrapped product gives back the factor only if it did not wrap. */
  lemma WrapIsDetected(nmemb: nat, size: nat, modulus: nat)
    requires 0 < modulus && nmemb < modulus && 0 < size < modulus
    ensures nmemb * size % modulus / size == nmemb <==> nmemb * size < modulus
    ensures nmemb * size < modulus ==> nmemb * size % modulus == nmemb * size
  {
    var product := nmemb * size;
    if product < modulus {
      ModIsUnique(product, modulus, 0, product);
      ModIsUnique(product, size, nmemb, 0);
    } else {
      DivModParts(product, modulus);
    }
  }

  function TrueProduct(nmemb: nat, size: nat): nat {
    nmemb * size
  }

  predicate StartsWithZeros(content: seq<byte>, n: nat) {
    n <= |content| && forall i :: 0 <= i < n ==> content[i] == 0
  }

  lemma ZerosAtFront(content: seq<byte>, zeros: seq<byte>)
    requires |zeros| <= |content| && forall i :: 0 <= i < |zeros| ==> zeros[i] == 0
    ensures StartsWithZeros(Patched(content, 0, zeros), |zeros|)
  {
  }

  /** The product as the machine forms it, and the check whether that is the true product. */
  method Product(nmemb: nat, size: nat, modulus: nat) returns (total: nat, ok: bool)
    requires 0 < modulus && nmemb < modulus && size < modulus
    ensures ok <==> size != 0 && TrueProduct(nmemb, size) < modulus
    ensures ok ==> total == TrueProduct(nmemb, size)
  {
    total := nmemb * size % modulus;
    ok := size != 0 && total / size == nmemb;
    if size != 0 {
      WrapIsDetected(nmemb, size, modulus);
    }
  }

  class Zone {
    const arena: array<byte>
    const headerSize: nat   // sizeof(chunk_t)
    const logAlign: nat     // HEAPMEM_ALIGNMENT is 2^logAlign
    const sizeBits: nat     // the width of size_t
    var heapUsage: nat
    var maxHeapUsage: nat
    var freeList: Link
    var headers: Headers
    ghost var tiles: Tiles      // the chunks: address and payload size
    ghost var free: seq<nat>    // the free list, in order

    // -------------------------------------------------------------------------------------------
    // The invariant

    const alignment: nat := Pow2(logAlign)
    const sizeMax: nat := Pow2(sizeBits) - 1

    ghost predicate Platform() {
      && headerSize > 0 && Multiple(headerSize, alignment) && logAlign <= sizeBits
      && arena.Length + headerSize + alignment <= sizeMax
    }

    /** The chunks are where they should be and each still has its header. */
    ghost predicate Located()
      reads this
    {
      Tiling(tiles, heapUsage, headerSize) && heapUsage <= arena.Length && HaveHeaders(tiles, headers)
    }

    ghost predicate Linked()
      reads this
    {
      FreeList(free, headers, freeList) && ListOfTiles(free, tiles)
    }

    /** Everything but the tie between the free list and the in-use flags. */
    ghost predicate Sound()
      reads this
    {
      && Platform() && heapUsage <= maxHeapUsage <= arena.Length
      && Located() && Linked() && SizesMatch(tiles, headers) && AlignedTiles(tiles, alignment)
    }

    ghost predicate FreeIsUnused(pending: set<nat>)
      reads this
    {
      FreeMatches(free, tiles, headers, pending)
    }

    ghost predicate Valid()
      reads this
    {
      Sound() && FreeIsUnused({})
    }

    // -------------------------------------------------------------------------------------------
    // Live objects

    /** What the heap's users see: the pointers they hold, and the bytes each gives access to. */
    ghost function Objects(): map<nat, seq<byte>>
      reads this, arena
      requires Located()
    {
      ObjectsOf(arena[..], tiles, headers, headerSize)
    }

    /** The chunk at `a` has its header, which holds its size, and lies within the heap. */
    lemma ChunkAt(a: nat)
      requires Located() && SizesMatch(tiles, headers) && a in tiles
      ensures a in headers && headers[a].size == tiles[a] > 0
      ensures End(tiles, a, headerSize) <= heapUsage
      ensures End(tiles, a, headerSize) == heapUsage || End(tiles, a, headerSize) in tiles
    {
      hide Tiling, HaveHeaders, SizesMatch;
      SizeMatches(tiles, headers, a);
      PayloadsNotEmpty(tiles, heapUsage, headerSize);
      TileContinued(tiles, heapUsage, headerSize, a);
    }

    // -------------------------------------------------------------------------------------------
    // Stores to the arena

    /** A header is stored in the arena: it takes the place of `headerSize` bytes, which hold the
        header's own representation from now on. */
    method StoreHeader(a: nat, hd: Header)
      requires a + headerSize <= arena.Length
      modifies this`headers, arena
      ensures headers == Stored(old(headers), a, hd, headerSize)
      ensures SameExcept(arena[..], old(arena[..]), a, a + headerSize)
    {
      for i := a to a + headerSize
        invariant headers == old(headers)
        invariant forall j :: 0 <= j < arena.Length && (j < a || a + headerSize <= j) ==> arena[j] == old(arena[j])
      {
        arena[i] := *;
      }
      headers := Stored(headers, a, hd, headerSize);
    }

    /** A field of a chunk's header is assigned. */
    method UpdateHeader(a: nat, hd: Header)
      requires Located() && a in tiles
      modifies this`headers, arena
      ensures Located() && HeaderSet(headers, old(headers), tiles, a, hd)
      ensures OnlyHeaders(arena[..], old(arena[..]), tiles, headerSize)
    {
      hide Tiling, HaveHeaders, HeaderSet, OnlyHeaders, SameExcept, Stored;
      TileContinued(tiles, heapUsage, headerSize, a);
      HeaderStored(tiles, heapUsage, headerSize, headers, a, hd);
      StoreHeader(a, hd);
      OneHeaderOnly(arena[..], old(arena[..]), tiles, headerSize, a);
    }

    // -------------------------------------------------------------------------------------------
    // The free list

    /** `chunk->prev = prev`, unless `chunk` is NULL. */
    method SetPrev(chunk: Link, prev: Link)
      requires Located() && (chunk.At? ==> chunk.addr in tiles)
      modifies this`headers, arena
      ensures Located() && PrevSet(headers, old(headers), tiles, chunk, prev)
      ensures OnlyHeaders(arena[..], old(arena[..]), tiles, headerSize)
    {
      hide Tiling, HaveHeaders, HeaderSet, PrevSet, OnlyHeaders;
      if chunk.At? {
        HasHeader(tiles, headers, chunk.addr);
        UpdateHeader(chunk.addr, headers[chunk.addr].(prev := prev));
        PrevIsSet(headers, old(headers), tiles, chunk.addr, prev);
      } else {
        NoPrevSet(headers, tiles, prev);
        NoStore(arena[..], tiles, headerSize);
      }
    }

    /** `remove_chunk_from_free_list` */
    method RemoveFromFreeList(chunk: nat)
      requires Located() && Linked() && chunk in free
      modifies this`headers, this`freeList, this`free, arena
      ensures Located() && Linked() && TagsStay(headers, old(headers), tiles)
      ensures free == Among(old(free), tiles.Keys - {chunk})
      ensures OnlyHeaders(arena[..], old(arena[..]), tiles, headerSize)
    {
      hide Tiling, HaveHeaders, FreeList, ListOfTiles, HeaderSet, PrevSet, Unlinked, TagsStay, OnlyHeaders, Among;
      ghost var hs := headers;
      ghost var n := PlaceOf(free, headers, freeList, tiles, chunk);
      Unlink(chunk, n);
      FreeListHead(free, hs, old(freeList));
      ListWithout(free, hs, headers, old(freeList), tiles, n);
      free := RemoveAt(free, n);
    }

    /** Its assignments. */
    method Unlink(chunk: nat, ghost n: nat)
      requires Located() && Linked() && n < |free| && free[n] == chunk
      modifies this`headers, this`freeList, arena
      ensures Located() && chunk in old(headers) && Unlinked(headers, old(headers), tiles, chunk)
      ensures freeList == if n == 0 then LinkAt(free, 1) else old(freeList)
      ensures OnlyHeaders(arena[..], old(arena[..]), tiles, headerSize)
    {
      hide Tiling, HaveHeaders, FreeList, ListOfTiles, HeaderSet, PrevSet, Unlinked, OnlyHeaders;
      ghost var hs, bytes := headers, arena[..];
      ghost var place := PlaceOf(free, headers, freeList, tiles, chunk);
      OnePlace(free, headers, freeList, n, place);
      var links := headers[chunk];
      if freeList == At(chunk) {
        freeList := links.next;
        SetPrev(freeList, Null);
      } else {
        HasHeader(tiles, headers, links.prev.addr);
        UpdateHeader(links.prev.addr, headers[links.prev.addr].(next := links.next));
      }
      ghost var hs1, bytes1 := headers, arena[..];
      SetPrev(links.next, links.prev);
      OnlyHeadersTwice(arena[..], bytes1, bytes, tiles, headerSize);
      if n == 0 {
        FirstUnlinked(headers, hs1, hs, tiles, chunk);
      } else {
        InnerUnlinked(headers, hs1, hs, tiles, chunk, links.prev.addr);
      }
    }

    /** `free_chunk` */
    method FreeChunk(chunk: nat)
      requires Located() && Linked() && chunk in tiles && chunk !in free && headers[chunk].size == tiles[chunk]
      modifies this`headers, this`freeList, this`free, this`tiles, this`heapUsage, arena
      ensures Located() && Linked()
      ensures if End(old(tiles), chunk, headerSize) == old(heapUsage)
              then heapUsage == chunk && tiles == old(tiles) - {chunk} && free == old(free)
              else heapUsage == old(heapUsage) && tiles == old(tiles) && free == [chunk] + old(free)
      ensures Freed(headers, old(headers), old(tiles), chunk)
      ensures OnlyHeaders(arena[..], old(arena[..]), old(tiles), headerSize)
    {
      hide Tiling, HaveHeaders, FreeList, ListOfTiles, HeaderSet, PrevSet, Freed, OnlyHeaders;
      ghost var hs, bytes := headers, arena[..];
      HasHeader(tiles, headers, chunk);
      UpdateHeader(chunk, headers[chunk].(inUse := false));
      SetHeader(headers, hs, tiles, chunk, hs[chunk].(inUse := false));
      if chunk + headerSize + headers[chunk].size == heapUsage {
        heapUsage := heapUsage - (headerSize + headers[chunk].size);
        DropKeepsTiling(tiles, old(heapUsage), headerSize, chunk);
        DroppedIsFreed(free, hs, headers, freeList, tiles, chunk);
        tiles := tiles - {chunk};
      } else {
        ghost var bytes1 := arena[..];
        PushChunk(chunk, hs);
        OnlyHeadersTwice(arena[..], bytes1, bytes, tiles, headerSize);
      }
    }

    /** Its second branch. */
    method PushChunk(chunk: nat, ghost hs: Headers)
      requires Located() && chunk in tiles && chunk !in free && chunk in hs
      requires FreeList(free, hs, freeList) && ListOfTiles(free, tiles)
      requires HeaderSet(headers, hs, tiles, chunk, hs[chunk].(inUse := false))
      modifies this`headers, this`freeList, this`free, arena
      ensures Located() && Linked() && free == [chunk] + old(free) && Freed(headers, hs, tiles, chunk)
      ensures OnlyHeaders(arena[..], old(arena[..]), tiles, headerSize)
    {
      hide Tiling, HaveHeaders, FreeList, ListOfTiles, HeaderSet, PrevSet, Freed, OnlyHeaders;
      ghost var hs1, bytes := headers, arena[..];
      HasHeader(tiles, headers, chunk);
      UpdateHeader(chunk, headers[chunk].(prev := Null, next := freeList));
      ghost var hs2, bytes2 := headers, arena[..];
      HeadIsChunk(free, hs, freeList, tiles);
      SetPrev(freeList, At(chunk));
      OnlyHeadersTwice(arena[..], bytes2, bytes, tiles, headerSize);
      PushedIsFreed(free, hs, hs1, hs2, headers, freeList, tiles, chunk);
      freeList := At(chunk);
      free := [chunk] + free;
    }

    // -------------------------------------------------------------------------------------------
    // Splitting and coalescing

    function AlignSize(size: nat): nat
      requires Platform()
    {
      RoundUp(size, logAlign, sizeBits)
    }

    /** A header is laid inside the payload of `chunk`, which loses what follows `offset`. */
    method LayHeader(chunk: nat, offset: nat)
      requires Located() && Linked() && SizesMatch(tiles, headers) && chunk in tiles
      requires 0 < offset && offset + headerSize < tiles[chunk]
      modifies this`headers, this`tiles, arena
      ensures Located() && Linked() && tiles == Cut(old(tiles), chunk, offset, headerSize)
      ensures HeadersStay(headers, old(headers), old(tiles))
      ensures var b := chunk + headerSize + offset;
        && b !in old(tiles) && b in headers && !headers[b].inUse
        && headers[b].size == old(tiles)[chunk] - headerSize - offset
      ensures OnlyHeaders(arena[..], old(arena[..]), tiles, headerSize)
    {
      hide Tiling, HaveHeaders, SizesMatch, FreeList, ListOfTiles, HeadersStay, OnlyHeaders, SameExcept, Stored;
      ghost var hs, was := headers, tiles;
      var newChunk := chunk + headerSize + offset;
      ChunkAt(chunk);
      var prev, next: Link := *, *;
      var hd := Header(prev, next, headers[chunk].size - headerSize - offset, false);
      CutKeepsTiling(tiles, heapUsage, headerSize, chunk, offset);
      HeaderLaidInside(tiles, heapUsage, headerSize, headers, chunk, offset, hd);
      StoreHeader(newChunk, hd);
      tiles := Cut(tiles, chunk, offset, headerSize);
      OneHeaderOnly(arena[..], old(arena[..]), tiles, headerSize, newChunk);
      ListInCut(free, hs, headers, freeList, was, headerSize, chunk, offset);
    }

    /** The chunk is cut after `offset` bytes, and what follows is freed. */
    method CutChunk(chunk: nat, offset: nat)
      requires Located() && Linked() && SizesMatch(tiles, headers) && chunk in tiles && chunk !in free
      requires 0 < offset && offset + headerSize < tiles[chunk]
      modifies this`headers, this`freeList, this`free, this`tiles, this`heapUsage, arena
      ensures Located() && Linked() && SizesMatch(tiles, headers) && chunk + headerSize + offset !in old(tiles)
      ensures CutShape(tiles, free, heapUsage, old(tiles), old(free), old(heapUsage), headerSize, chunk, offset)
      ensures CutFlags(headers, old(headers), tiles, old(tiles))
      ensures OnlyHeaders(arena[..], old(arena[..]), Cut(old(tiles), chunk, offset, headerSize), headerSize)
    {
      hide Tiling, HaveHeaders, SizesMatch, FreeList, ListOfTiles, HeadersStay, HeaderSet, Freed, CutFlags,
           OnlyHeaders;
      ghost var hs, bytes, was := headers, arena[..], tiles;
      LayHeader(chunk, offset);
      ghost var hs1, bytes1, cut := headers, arena[..], tiles;
      NotOnList(free, was, chunk + headerSize + offset);
      FreeChunk(chunk + headerSize + offset);
      ghost var hs2, bytes2 := headers, arena[..];
      HasHeader(tiles, headers, chunk);
      ghost var hd := headers[chunk].(size := offset, prev := Null, next := Null);
      UpdateHeader(chunk, headers[chunk].(size := offset, prev := Null, next := Null));
      LinksOfSet(free, hs2, headers, tiles, chunk, hd);
      FreeListOfLinks(free, hs2, headers, freeList);
      CutMatches(was, hs, hs1, hs2, headers, tiles, headerSize, chunk, offset);
      FewerHeaders(arena[..], bytes2, tiles, cut, headerSize);
      OnlyHeadersTwice(arena[..], bytes2, bytes1, cut, headerSize);
      OnlyHeadersTwice(arena[..], bytes1, bytes, cut, headerSize);
    }

    /** A size that is aligned and fits a chunk is not rounded up. */
    lemma AlignedStays(chunk: nat, size: nat)
      requires Sound() && chunk in tiles && 0 < size <= tiles[chunk] && Multiple(size, alignment)
      ensures AlignSize(size) == size
    {
      hide Tiling, RoundUp, Multiple, FreeList, HaveHeaders, SizesMatch, ListOfTiles, AlignedTiles;
      TileBounds(tiles, heapUsage, headerSize);
      RoundUpIsLeastMultiple(size, logAlign, sizeBits);
    }

    /** `split_chunk`: what lies beyond `offset` becomes a free chunk if it can hold a header and
        anything else; at the end of the heap it is released altogether. */
    method SplitChunk(chunk: nat, size: nat, ghost pending: set<nat>)
      requires Sound() && FreeIsUnused(pending) && pending <= {chunk}
      requires chunk in tiles && chunk !in free
      requires 0 < size <= tiles[chunk] && Multiple(size, alignment)
      modifies this`headers, this`freeList, this`free, this`tiles, this`heapUsage, arena
      ensures Sound() && FreeIsUnused(pending)
      ensures chunk in tiles && chunk !in free && chunk in headers && headers[chunk].inUse == old(headers[chunk].inUse)
      ensures tiles[chunk] == if size + headerSize < old(tiles[chunk]) then size else old(tiles[chunk])
      ensures Trimmed(tiles, free, heapUsage, old(tiles), old(free), old(heapUsage), headerSize, chunk, size)
      ensures OthersStay(tiles, old(tiles), chunk)
      ensures SameBut(Objects(), old(Objects()), chunk + headerSize)
      ensures old(tiles[chunk]) <= size + headerSize ==> Objects() == old(Objects())
      ensures heapUsage <= old(heapUsage)
    {
      hide Tiling, Objects, AlignSize, Multiple, FreeList, AlignedTiles, HaveHeaders, SizesMatch, ListOfTiles,
           FreeMatches, SameBut, OthersStay, CutShape;
      AlignedStays(chunk, size);
      ChunkAt(chunk);
      var offset := AlignSize(size);
      if offset + headerSize < headers[chunk].size {
        CutOff(chunk, offset, pending);
      } else {
        NothingCutOff(Objects(), tiles, chunk, headerSize);
      }
    }

    /** Its branch in which the chunk is cut. */
    method CutOff(chunk: nat, offset: nat, ghost pending: set<nat>)
      requires Sound() && FreeIsUnused(pending) && pending <= {chunk}
      requires chunk in tiles && chunk !in free
      requires 0 < offset && offset + headerSize < tiles[chunk] && Multiple(offset, alignment)
      modifies this`headers, this`freeList, this`free, this`tiles, this`heapUsage, arena
      ensures Sound() && FreeIsUnused(pending)
      ensures chunk in tiles && chunk !in free && chunk in headers && headers[chunk].inUse == old(headers[chunk].inUse)
      ensures tiles[chunk] == offset && OthersStay(tiles, old(tiles), chunk)
      ensures CutShape(tiles, free, heapUsage, old(tiles), old(free), old(heapUsage), headerSize, chunk, offset)
      ensures SameBut(Objects(), old(Objects()), chunk + headerSize)
      ensures heapUsage <= old(heapUsage)
    {
      hide Tiling, OnlyHeaders, ObjectsOf, Fits, Multiple, FreeList, AlignedTiles, HaveHeaders, SizesMatch,
           ListOfTiles, FreeMatches, SameBut, OthersStay, CutFlags, CutShape;
      ghost var was, hs, list, usage, b := tiles, headers, free, heapUsage, chunk + headerSize + offset;
      ChunkAt(chunk);
      TilesFit(arena[..], tiles, heapUsage, headerSize);
      CutKeepsAligned(tiles, headerSize, chunk, offset, alignment);
      DropKeepsAligned(Cut(tiles, chunk, offset, headerSize), b, alignment);
      CutChunk(chunk, offset);
      CutParts(tiles, free, heapUsage, was, list, usage, headerSize, chunk, offset);
      CutFlagsAt(headers, hs, tiles, was, chunk);
      CutMatchesFree(tiles, free, heapUsage, headers, was, list, usage, hs, headerSize, chunk, offset, pending);
      TilesFit(arena[..], tiles, heapUsage, headerSize);
      CutKeepsObjects(old(arena[..]), arena[..], was, tiles, hs, headers, usage, headerSize, chunk, offset);
    }

    /** One step of `coalesce_chunks`: the free chunk that follows `chunk` is absorbed. */
    method AbsorbNext(chunk: nat, next: nat)
      requires Valid() && chunk in tiles && next == End(tiles, chunk, headerSize)
      requires next in tiles && !headers[next].inUse
      modifies this`headers, this`freeList, this`free, this`tiles, arena
      ensures Valid() && chunk in tiles && tiles == Merged(old(tiles), chunk, headerSize)
      ensures next in headers && headers[next].size == old(tiles)[next]
      ensures free == Among(old(free), tiles.Keys) && FlagsStay(headers, old(headers), old(tiles))
      ensures Grown(Objects(), old(Objects()), chunk + headerSize)
    {
      hide Tiling, OnlyHeaders, ObjectsOf, FreeList, Multiple, Fits, Merged, Grown, AlignedTiles, Among, HaveHeaders,
           SizesMatch, ListOfTiles, FreeMatches, HeaderSet, TagsStay, FlagsStay;
      ghost var was, hs, list, bytes := tiles, headers, free, arena[..];
      ChunkAt(chunk);
      ChunkAt(next);
      IsFree(free, tiles, headers, {}, next);
      MergeKeepsTiling(tiles, heapUsage, headerSize, chunk);
      MergeKeepsAligned(tiles, headerSize, chunk, alignment);
      UpdateHeader(chunk, headers[chunk].(size := headers[chunk].size + headerSize + headers[next].size));
      ghost var hs1, bytes1 := headers, arena[..];
      LinksOfSet(free, hs, hs1, tiles, chunk, hs[chunk].(size := hs[chunk].size + headerSize + hs[next].size));
      FreeListOfLinks(free, hs, hs1, freeList);
      RemoveFromFreeList(next);
      OnlyHeadersTwice(arena[..], bytes1, bytes, tiles, headerSize);
      MergedLayout(tiles, heapUsage, headerSize, hs, hs1, headers, list, free, chunk, next);
      AbsorbedSize(tiles, headerSize, hs, hs1, headers, chunk, next);
      MergeKeepsObjects(bytes, arena[..], tiles, hs, headers, heapUsage, headerSize, chunk);
      tiles := Merged(tiles, chunk, headerSize);
    }

    /** `coalesce_chunks` */
    method CoalesceChunks(chunk: nat)
      requires Valid() && chunk in tiles
      modifies this`headers, this`freeList, this`free, this`tiles, arena
      ensures Valid() && chunk in tiles && chunk in headers
      ensures headers[chunk].inUse == old(headers[chunk].inUse) && tiles[chunk] >= old(tiles[chunk])
      ensures Grown(Objects(), old(Objects()), chunk + headerSize)
      ensures Coalesced(tiles, headers, old(tiles), old(headers), chunk, headerSize)
      ensures free == Among(old(free), tiles.Keys) && Settled(tiles, headers, heapUsage, headerSize, chunk)
      ensures End(tiles, chunk, headerSize) == FreeEnd(old(tiles), old(headers), heapUsage, chunk, headerSize)
    {
      hide Tiling, Objects, FreeList, Multiple, Grown, AlignedTiles, Coalesced, Merged, FreeEnd, Among, HaveHeaders,
           SizesMatch, ListOfTiles, FreeMatches, FlagsStay;
      ListIsAmong(free, tiles);
      NothingCoalesced(tiles, headers, heapUsage, chunk, headerSize);
      ChunkAt(chunk);
      var next := chunk + headerSize + headers[chunk].size;
      GrownByNothing(Objects(), chunk + headerSize);
      if next < heapUsage {
        HasHeader(tiles, headers, next);
      }
      while next < heapUsage && !headers[next].inUse
        invariant Valid() && chunk in tiles && next == End(tiles, chunk, headerSize) <= heapUsage
        invariant next == heapUsage || (next in tiles && next in headers)
        invariant Grown(Objects(), old(Objects()), chunk + headerSize)
        invariant Coalesced(tiles, headers, old(tiles), old(headers), chunk, headerSize)
        invariant free == Among(old(free), tiles.Keys)
        decreases heapUsage - next
      {
        ghost var before, tiles', headers' := Objects(), tiles, headers;
        AbsorbNext(chunk, next);
        AbsorbedOne(tiles, headers, tiles', headers', old(tiles), old(headers), old(free), heapUsage, chunk,
                    headerSize);
        next := next + headerSize + headers[next].size;
        ChunkAt(chunk);
        if next < heapUsage {
          HasHeader(tiles, headers, next);
        }
        GrownComposes(old(Objects()), before, Objects(), chunk + headerSize);
      }
      CoalescedChunk(tiles, headers, old(tiles), old(headers), chunk, headerSize);
      AllCoalesced(tiles, headers, old(tiles), old(headers), heapUsage, chunk, headerSize);
    }

    // -------------------------------------------------------------------------------------------
    // Searching the free list

    /** Where the unused chunks behind the chunk at `a` end. */
    ghost function RoomEnd(a: nat): nat
      reads this
      requires Located() && a in tiles
    {
      FreeEnd(tiles, headers, heapUsage, a, headerSize)
    }

    /** The part of the free list that a search looks at. */
    ghost function Window(): seq<nat>
      reads this
    {
      FirstOf(free)
    }

    /** `defrag_chunks` */
    method DefragChunks()
      requires Valid()
      modifies this`headers, this`freeList, this`free, this`tiles, arena
      ensures Valid() && Objects() == old(Objects())
      // What is left of the list is in order.
      ensures free == Among(old(free), tiles.Keys)
      // The chunks on the list that are visited, which are all if there are no more than the limit, have no
      // unused chunk behind them any more.
      ensures forall k :: 0 <= k < |free| && k + |old(free)| < |free| + CHUNK_SEARCH_MAX ==>
        Settled(tiles, headers, heapUsage, headerSize, free[k])
      // Every chunk in the window lies, with all that was unused behind it, within one chunk in the window now.
      ensures Defragged(tiles, free, old(tiles), old(headers), old(free), old(heapUsage), headerSize)
    {
      hide Tiling, Objects, FreeList, Multiple, AlignedTiles, Grown, Among, Coalesced, FreeEnd, Settled, HaveHeaders,
           SizesMatch, ListOfTiles, FreeMatches, Walked, Covered, SameFreeEnds;
      ghost var tiles0, hs0, free0 := tiles, headers, free;
      var i := CHUNK_SEARCH_MAX;
      var chunk := freeList;
      ghost var n, m := 0, 0;
      FreeListHead(free, headers, freeList);
      DistinctOnList(free, headers, freeList);
      ListIsAmong(free, tiles);
      WalkStarts(tiles, headers, free, heapUsage, headerSize);
      SameEndsAtFirst(tiles, headers, heapUsage, headerSize);
      while chunk.At?
        invariant Valid() && Objects() == old(Objects()) && free == Among(free0, tiles.Keys)
        invariant 0 <= i <= CHUNK_SEARCH_MAX && n <= |free| && chunk == LinkAt(free, n)
        invariant |free| - n + CHUNK_SEARCH_MAX - i <= |free0|
        invariant n + i <= CHUNK_SEARCH_MAX <= m + i
        invariant AllSettled(tiles, headers, heapUsage, headerSize, free[..n])
        invariant SameFreeEnds(tiles, headers, tiles0, hs0, heapUsage, headerSize)
        invariant Walked(tiles, free, n, tiles0, hs0, free0, m, heapUsage, headerSize)
        decreases i
      {
        if i == 0 {
          break;
        }
        i := i - 1;
        n, m := Visit(chunk.addr, n, m, tiles0, hs0, free0);
        chunk := headers[chunk.addr].next;
      }
      WindowCovered(n, m, tiles0, hs0, free0);
    }

    /** One visit of `defrag_chunks`. */
    method Visit(chunk: nat, ghost n: nat, ghost m: nat, ghost tiles0: Tiles, ghost hs0: Headers, ghost free0: seq<nat>)
      returns (ghost n': nat, ghost m': nat)
      requires Valid() && n < |free| && free[n] == chunk && free == Among(free0, tiles.Keys)
      requires AllSettled(tiles, headers, heapUsage, headerSize, free[..n])
      requires SameFreeEnds(tiles, headers, tiles0, hs0, heapUsage, headerSize)
      requires Walked(tiles, free, n, tiles0, hs0, free0, m, heapUsage, headerSize)
      modifies this`headers, this`freeList, this`free, this`tiles, arena
      ensures Valid() && Objects() == old(Objects()) && free == Among(free0, tiles.Keys)
      ensures 0 < n' <= |free| && n' <= n + 1 && |free| - n' < |old(free)| - n && m < m'
      ensures chunk in headers && headers[chunk].next == LinkAt(free, n')
      ensures AllSettled(tiles, headers, heapUsage, headerSize, free[..n'])
      ensures SameFreeEnds(tiles, headers, tiles0, hs0, heapUsage, headerSize)
      ensures Walked(tiles, free, n', tiles0, hs0, free0, m', heapUsage, headerSize)
    {
      hide Tiling, Objects, FreeList, Multiple, AlignedTiles, Grown, Among, Coalesced, FreeEnd, Settled, HaveHeaders,
           SizesMatch, ListOfTiles, FreeMatches, Walked, Covered, SameFreeEnds, AllSettled;
      ghost var tiles', headers', free', visited := tiles, headers, free, free[..n];
      DistinctOnList(free, headers, freeList);
      assert free[n] in free;
      IsFree(free, tiles, headers, {}, chunk);
      UnusedIsNoObject(chunk);
      ghost var objects := Objects();
      CoalesceChunks(chunk);
      UnownedIsUnchanged(Objects(), objects, chunk + headerSize);
      StaySettled(tiles, headers, tiles', headers', heapUsage, headerSize, visited, chunk);
      SameEndsStill(tiles, headers, tiles', headers', tiles0, hs0, heapUsage, headerSize, chunk);
      PlaceAmong(free', n, tiles.Keys);
      CoalescedKeys(tiles, headers, tiles', headers', chunk, headerSize);
      AmongTwice(free0, tiles'.Keys, tiles.Keys);
      m' := WalkGoesOn(tiles', headers', free', n, tiles, headers, free, tiles0, hs0, free0, m, heapUsage, headerSize);
      n' := |Among(visited, tiles.Keys)|;
      NextOfFree(free, headers, freeList, n');
      OneMoreSettled(tiles, headers, heapUsage, headerSize, free, n');
      n' := n' + 1;
    }

    lemma WindowCovered(n: nat, m: nat, tiles0: Tiles, hs0: Headers, free0: seq<nat>)
      requires Tiling(tiles0, heapUsage, headerSize) && HaveHeaders(tiles0, hs0) && ListOfTiles(free0, tiles0)
      requires Walked(tiles, free, n, tiles0, hs0, free0, m, heapUsage, headerSize)
      requires n <= CHUNK_SEARCH_MAX && (n == |free| || CHUNK_SEARCH_MAX <= m)
      requires forall i, j :: 0 <= i < j < |free0| ==> free0[i] != free0[j]
      ensures forall a :: a in FirstOf(free0) ==>
        a in tiles0 && Covered(tiles, headerSize, Window(), a, FreeEnd(tiles0, hs0, heapUsage, a, headerSize))
    {
      hide Tiling, HaveHeaders, ListOfTiles, Covered, FreeEnd, Walked;
      WalkedWithin(tiles, free, n, tiles0, hs0, free0, m, heapUsage, headerSize);
      var k := |FirstOf(free0)|;
      forall a | a in FirstOf(free0)
        ensures a in tiles0 && Covered(tiles, headerSize, Window(), a, FreeEnd(tiles0, hs0, heapUsage, a, headerSize))
      {
        assert FirstOf(free0) == free0[..k];
        WalkCovers(tiles, free, n, tiles0, hs0, free0, m, heapUsage, headerSize, k, a);
        CoveredByMore(tiles, headerSize, free, n, |Window()|, a, FreeEnd(tiles0, hs0, heapUsage, a, headerSize));
        assert Window() == free[..|Window()|];
      }
    }

    /** The search loop of `get_free_chunk`: best fit, first come first served. */
    method FindBestFit(size: nat) returns (best: Link)
      requires Valid()
      ensures forall a :: a in Window() ==> a in tiles
      ensures best.Null? ==> NoneFits(Window(), tiles, size)
      ensures best.At? ==> BestFit(Window(), tiles, size, best.addr)
    {
      hide Tiling, FreeList, Multiple, AlignedTiles, HaveHeaders, FreeMatches;
      best := Null;
      var i := CHUNK_SEARCH_MAX;
      var chunk := freeList;
      ghost var k, at := 0, 0;
      FreeListHead(free, headers, freeList);
      while chunk.At?
        invariant 0 <= k <= |free| && k == CHUNK_SEARCH_MAX - i && chunk == LinkAt(free, k)
        invariant best.Null? ==> forall j :: 0 <= j < k ==> tiles[free[j]] < size
        invariant best.At? ==> 0 <= at < k && free[at] == best.addr && size < tiles[best.addr]
        invariant best.At? ==> forall j :: 0 <= j < k && size <= tiles[free[j]] ==>
          if j < at then tiles[best.addr] < tiles[free[j]] else tiles[best.addr] <= tiles[free[j]]
        decreases i
      {
        if i == 0 {
          break;
        }
        i := i - 1;
        NextOfFree(free, headers, freeList, k);
        if size <= headers[chunk.addr].size {
          if best.Null? || headers[chunk.addr].size < headers[best.addr].size {
            best, at := chunk, k;
          }
          if headers[best.addr].size == size {
            assert Window()[at] == best.addr;
            return;
          }
        }
        chunk := headers[chunk.addr].next;
        k := k + 1;
      }
      assert best.At? ==> Window()[at] == best.addr;
    }

    /** A chunk leaves the free list and is about to be handed out. */
    method TakeFreeChunk(chunk: nat)
      requires Valid() && chunk in free
      modifies this`headers, this`freeList, this`free, arena
      ensures Sound() && FreeIsUnused({chunk}) && chunk in tiles && chunk !in free
      ensures chunk in headers && !headers[chunk].inUse
      ensures free == Among(old(free), tiles.Keys - {chunk})
      ensures Objects() == old(Objects())
    {
      hide Platform, Pow2, Tiling, OnlyHeaders, ObjectsOf, FreeList, Multiple, Fits, AlignedTiles, HaveHeaders,
           SizesMatch, ListOfTiles, FreeMatches, TagsStay, FlagsStay, Among;
      ghost var hs, list := headers, free;
      IsFree(free, tiles, headers, {}, chunk);
      RemoveFromFreeList(chunk);
      TakenFromList(list, free, tiles, hs, headers, chunk);
      TagsKeepSizes(tiles, hs, headers);
      FlagsKeepLive(tiles, hs, headers);
      FlagStays(headers, hs, tiles, chunk);
      TilesFit(arena[..], tiles, heapUsage, headerSize);
      TilesFit(old(arena[..]), tiles, heapUsage, headerSize);
      HeaderStoresKeepAll(old(arena[..]), arena[..], tiles, tiles, hs, headers, heapUsage, headerSize);
    }

    /** `get_free_chunk`; `sizes` and `list` are the chunks and the free list after defragmentation. */
    method GetFreeChunk(size: nat) returns (best: Link, ghost sizes: Tiles, ghost list: seq<nat>)
      requires Valid() && size > 0 && Multiple(size, alignment)
      modifies this`headers, this`freeList, this`free, this`tiles, this`heapUsage, arena
      ensures Sound() && FreeIsUnused(if best.At? then {best.addr} else {})
      ensures Objects() == old(Objects()) && heapUsage <= old(heapUsage)
      ensures Defragged(sizes, list, old(tiles), old(headers), old(free), old(heapUsage), headerSize)
      // None in the window is large enough: then nothing else has changed.
      ensures best.Null? ==> NoneFits(FirstOf(list), sizes, size)
      ensures best.Null? ==> heapUsage == old(heapUsage) && tiles == sizes && free == list
      // Otherwise the smallest that is large enough is taken, and cut if more than a header is left over.
      ensures best.At? ==> BestFit(FirstOf(list), sizes, size, best.addr)
      ensures best.At? ==> best.addr in tiles && !headers[best.addr].inUse && best.addr in sizes
      ensures best.At? ==> TakenFrom(sizes, list, old(heapUsage), best.addr, size)
      ensures best.At? ==> size <= tiles[best.addr] <= size + headerSize
    {
      hide Tiling, Objects, FreeList, Multiple, AlignedTiles, SameBut, HaveHeaders, SizesMatch, ListOfTiles,
           FreeMatches, Among, Covered, OthersStay, FreeEnd, Settled, FirstOf, Trimmed, BestFit, NoneFits;
      DefragChunks();
      sizes, list := tiles, free;
      best := FindBestFit(size);
      if best.At? {
        BestFitFits(FirstOf(list), sizes, size, best.addr);
        FirstAreOnList(list, best.addr);
        TakeFreeChunk(best.addr);
        UnusedIsNoObject(best.addr);
        ghost var before := Objects();
        SplitChunk(best.addr, size, {best.addr});
        UnownedIsUnchanged(Objects(), before, best.addr + headerSize);
      }
    }

    /** The chunk at `a` has been taken from the list and the rest of it given back. */
    ghost predicate TakenFrom(sizes: Tiles, list: seq<nat>, usage: nat, a: nat, size: nat)
      reads this`tiles, this`free, this`heapUsage
      requires a in sizes
    {
      Trimmed(tiles, free, heapUsage, sizes, Among(list, sizes.Keys - {a}), usage, headerSize, a, size)
    }

    lemma UnusedIsNoObject(chunk: nat)
      requires Located() && chunk in tiles && chunk in headers && !headers[chunk].inUse
      ensures chunk + headerSize !in Objects()
    {
      hide Tiling, HaveHeaders, Objects;
      ObjectSize(chunk);
    }

    lemma ObjectSize(chunk: nat)
      requires Located()
      ensures chunk + headerSize in Objects() <==> Live(tiles, headers, chunk)
      ensures chunk + headerSize in Objects() ==> |Objects()[chunk + headerSize]| == tiles[chunk]
    {
      hide Tiling, ObjectsOf, Fits, Live, HaveHeaders;
      TilesFit(arena[..], tiles, heapUsage, headerSize);
      SizeOfObject(arena[..], tiles, headers, headerSize, chunk);
    }

    /** `extend_space`: None means that the arena has too little room left. */
    method ExtendSpace(size: nat) returns (place: Link)
      requires heapUsage <= maxHeapUsage <= arena.Length
      modifies this`heapUsage, this`maxHeapUsage
      ensures place.Null? <==> old(heapUsage) + size > arena.Length
      ensures place.Null? ==> heapUsage == old(heapUsage) && maxHeapUsage == old(maxHeapUsage)
      ensures place.At? ==> place.addr == old(heapUsage) && heapUsage == old(heapUsage) + size
      ensures heapUsage <= maxHeapUsage <= arena.Length
      ensures maxHeapUsage == if heapUsage > old(maxHeapUsage) then heapUsage else old(maxHeapUsage)
    {
      if size > arena.Length - heapUsage {
        return Null;
      }
      place := At(heapUsage);
      heapUsage := heapUsage + size;
      if heapUsage > maxHeapUsage {
        maxHeapUsage := heapUsage;
      }
    }

    /** The last resort of `zone_alloc`: a new chunk at the end of the heap. */
    method AppendChunk(size: nat) returns (chunk: Link)
      requires Valid() && size > 0 && Multiple(size, alignment)
      modifies this`headers, this`tiles, this`heapUsage, this`maxHeapUsage, arena
      ensures Sound() && FreeIsUnused(if chunk.At? then {chunk.addr} else {})
      ensures Objects() == old(Objects())
      ensures chunk.Null? <==> old(heapUsage) + headerSize + size > arena.Length
      ensures chunk.Null? ==> free == old(free) && tiles == old(tiles) && heapUsage == old(heapUsage)
      ensures chunk.At? ==> chunk.addr in tiles && chunk.addr in headers && !headers[chunk.addr].inUse
      ensures chunk.At? ==> tiles[chunk.addr] == size
      ensures chunk.At? ==> chunk.addr == old(heapUsage) && tiles == old(tiles)[chunk.addr := size] && free == old(free)
      ensures heapUsage == if chunk.At? then old(heapUsage) + headerSize + size else old(heapUsage)
      ensures maxHeapUsage == if heapUsage > old(maxHeapUsage) then heapUsage else old(maxHeapUsage)
    {
      hide Tiling, OnlyHeaders, ObjectsOf, FreeList, Multiple, Fits, AlignedTiles, HaveHeaders, SizesMatch,
           ListOfTiles, FreeMatches, SameExcept, Stored, FlagsStay;
      ghost var was, hs, usage := tiles, headers, heapUsage;
      chunk := ExtendSpace(headerSize + size);
      if chunk.At? {
        AppendKeepsAligned(tiles, usage, headerSize, size, alignment);
        AppendKeepsTiling(tiles, usage, headerSize, size);
        var prev, next: Link := *, *;
        AppendedLayout(tiles, usage, headerSize, size, headers, Header(prev, next, size, false), free, freeList);
        StoreHeader(chunk.addr, Header(prev, next, size, false));
        tiles := tiles[chunk.addr := size];
        AppendKeepsObjects(old(arena[..]), arena[..], was, hs, headers, usage, headerSize, size);
      }
    }

    // -------------------------------------------------------------------------------------------
    // The calls

    /** `HEAPMEM_ZONE_DEFINE`: a zone over a buffer that holds anything. */
    constructor (buffer: array<byte>, headerSize: nat, logAlign: nat, sizeBits: nat)
      requires headerSize > 0 && Multiple(headerSize, Pow2(logAlign)) && logAlign <= sizeBits
      requires buffer.Length + headerSize + Pow2(logAlign) < Pow2(sizeBits)
      ensures Valid() && arena == buffer && Objects() == map[]
      ensures this.headerSize == headerSize && this.logAlign == logAlign && this.sizeBits == sizeBits
    {
      this.arena := buffer;
      this.headerSize, this.logAlign, this.sizeBits := headerSize, logAlign, sizeBits;
      heapUsage, maxHeapUsage, freeList, headers := 0, 0, Null, map[];
      tiles, free := map[], [];
    }

    method HandOut(chunk: nat) returns (ptr: Link)
      requires Sound() && FreeIsUnused({chunk}) && chunk in tiles && !headers[chunk].inUse
      modifies this`headers, arena
      ensures Valid() && ptr == At(chunk + headerSize)
      ensures Added(Objects(), old(Objects()), chunk + headerSize)
      ensures |Objects()[chunk + headerSize]| == tiles[chunk]
    {
      hide Platform, Pow2, Tiling, OnlyHeaders, ObjectsOf, FreeList, Multiple, Fits, AlignedTiles, HaveHeaders,
           SizesMatch, ListOfTiles, FreeMatches, Added, HeaderSet, Live;
      ghost var hs := headers;
      HasHeader(tiles, headers, chunk);
      TilesFit(arena[..], tiles, heapUsage, headerSize);
      UpdateHeader(chunk, headers[chunk].(inUse := true));
      LinksOfSet(free, hs, headers, tiles, chunk, hs[chunk].(inUse := true));
      FreeListOfLinks(free, hs, headers, freeList);
      NowInUse(free, tiles, hs, headers, chunk);
      TilesFit(arena[..], tiles, heapUsage, headerSize);
      OneMoreObject(old(arena[..]), arena[..], tiles, hs, headers, heapUsage, headerSize, chunk);
      ptr := At(chunk + headerSize);
    }

    /** The two places a chunk can come from have nothing to offer. */
    ghost predicate NoRoomFor(size: nat)
      reads this
    {
      heapUsage + headerSize + size > arena.Length && NoneFits(Window(), tiles, size)
    }

    /** There is room at the end of the arena, or in a chunk in the window together with the unused chunks
        behind it. */
    ghost predicate HasRoom(size: nat)
      reads this
      requires Located()
    {
      heapUsage + headerSize + size <= arena.Length || HasFree(size)
    }

    ghost predicate HasFree(size: nat)
      reads this
      requires Located()
    {
      RoomInWindow(tiles, headers, free, heapUsage, headerSize, size)
    }

    /** The object at `ptr` is in the best fit of the window `list` begins with, or if none fits at the old end of
        the heap. */
    ghost predicate Placed(sizes: Tiles, list: seq<nat>, usage: nat, ptr: nat, size: nat) {
      if NoneFits(FirstOf(list), sizes, size) then ptr == usage + headerSize
      else headerSize <= ptr && BestFit(FirstOf(list), sizes, size, ptr - headerSize)
    }

    /** The heap has not grown. */
    predicate SameEnd(usage: nat, maxUsage: nat)
      reads this`heapUsage, this`maxHeapUsage
    {
      heapUsage <= usage && maxHeapUsage == maxUsage
    }

    /** What becomes of the chunks, the free list and the end of the heap then. */
    ghost predicate LaidOut(sizes: Tiles, list: seq<nat>, usage: nat, ptr: nat, size: nat)
      reads this`tiles, this`free, this`heapUsage
    {
      headerSize <= ptr &&
      var a := ptr - headerSize;
      if NoneFits(FirstOf(list), sizes, size)
      then tiles == sizes[a := size] && free == list && heapUsage == usage + headerSize + size
      else a in sizes && TakenFrom(sizes, list, usage, a, size)
    }

    /** Where `zone_alloc` gets a chunk from; `sizes` and `list` are the chunks and the free list after
        defragmentation. */
    method Obtain(size: nat) returns (chunk: Link, ghost sizes: Tiles, ghost list: seq<nat>)
      requires Valid() && size > 0 && Multiple(size, alignment)
      modifies this, arena
      ensures Sound() && FreeIsUnused(if chunk.At? then {chunk.addr} else {}) && Objects() == old(Objects())
      ensures Defragged(sizes, list, old(tiles), old(headers), old(free), old(heapUsage), headerSize)
      ensures chunk.Null? ==> NoRoomFor(size) && !old(HasRoom(size)) && heapUsage == old(heapUsage)
      ensures old(HasFree(size)) ==> !NoneFits(FirstOf(list), sizes, size)
      ensures !NoneFits(FirstOf(list), sizes, size) ==> chunk.At? && SameEnd(old(heapUsage), old(maxHeapUsage))
      ensures chunk.At? ==> Placed(sizes, list, old(heapUsage), chunk.addr + headerSize, size)
      ensures chunk.At? ==> LaidOut(sizes, list, old(heapUsage), chunk.addr + headerSize, size)
      ensures chunk.At? ==> chunk.addr in tiles && !headers[chunk.addr].inUse
      ensures chunk.At? ==> size <= tiles[chunk.addr] <= size + headerSize
      ensures heapUsage <= old(heapUsage) || heapUsage == old(heapUsage) + headerSize + size
      ensures maxHeapUsage == if heapUsage > old(maxHeapUsage) then heapUsage else old(maxHeapUsage)
    {
      hide Tiling, Objects, FreeList, Multiple, AlignedTiles, HaveHeaders, SizesMatch, ListOfTiles, FreeMatches,
           FreeEnd, Defragged, FirstOf, NoneFits, BestFit, Trimmed, RoomInWindow;
      chunk, sizes, list := GetFreeChunk(size);
      if old(HasFree(size)) {
        RoomIsOneChunk(sizes, list, old(tiles), old(headers), old(free), old(heapUsage), headerSize, size);
      }
      if chunk.Null? {
        chunk := AppendChunk(size);
      } else {
        BestFitFits(FirstOf(list), sizes, size, chunk.addr);
      }
    }

    /** `zone_alloc`; `sizes` and `list` are the chunks and the free list after defragmentation. */
    method Alloc(size: nat) returns (ptr: Link, ghost sizes: Tiles, ghost list: seq<nat>)
      requires Valid()
      modifies this, arena
      ensures Valid()
      ensures ptr.Null? ==> Objects() == old(Objects()) && heapUsage == old(heapUsage)
      ensures ptr.Null? ==> size == 0 || size > arena.Length || NoRoomFor(AlignSize(size))
      ensures size == 0 || size > arena.Length ==> ptr.Null?
      // What had room before the call succeeds, and what had room in the window leaves the end of the heap alone.
      ensures 0 < size <= arena.Length && old(HasRoom(AlignSize(size))) ==> ptr.At?
      ensures 0 < size <= arena.Length && old(HasFree(AlignSize(size))) ==>
        ptr.At? && !NoneFits(FirstOf(list), sizes, AlignSize(size)) && SameEnd(old(heapUsage), old(maxHeapUsage))
      // The object is in the smallest sufficient chunk of the window, and in a new chunk only if there is none.
      ensures 0 < size <= arena.Length ==>
        Defragged(sizes, list, old(tiles), old(headers), old(free), old(heapUsage), headerSize)
      ensures ptr.At? ==> Placed(sizes, list, old(heapUsage), ptr.addr, AlignSize(size))
      ensures ptr.At? ==> LaidOut(sizes, list, old(heapUsage), ptr.addr, AlignSize(size))
      ensures heapUsage <= old(heapUsage) || heapUsage == old(heapUsage) + headerSize + AlignSize(size)
      ensures maxHeapUsage == if heapUsage > old(maxHeapUsage) then heapUsage else old(maxHeapUsage)
      ensures ptr.At? ==> Added(Objects(), old(Objects()), ptr.addr)
      ensures ptr.At? ==> size <= AlignSize(size) <= |Objects()[ptr.addr]| <= AlignSize(size) + headerSize
      ensures ptr.At? ==> Multiple(ptr.addr, alignment)
    {
      hide Tiling, Objects, FreeList, Multiple, AlignedTiles, HaveHeaders, SizesMatch, ListOfTiles, FreeMatches, Added,
           RoundUp, Defragged, FirstOf, NoneFits, Placed, LaidOut, RoomInWindow;
      sizes, list := tiles, free;
      if size > arena.Length || size == 0 {
        ptr := Null;
        return;
      }
      RoundUpIsLeastMultiple(size, logAlign, sizeBits);
      var rounded := AlignSize(size);
      if rounded == 0 {
        assert false;
      }
      var chunk;
      chunk, sizes, list := Obtain(rounded);
      if chunk.Null? {
        ptr := Null;
        return;
      }
      AlignedChunk(tiles, chunk.addr, alignment);
      MultiplesAdd(chunk.addr, headerSize, alignment);
      ptr := HandOut(chunk.addr);
    }

    predicate InZone(p: nat)
      reads this
    {
      headerSize <= p < heapUsage
    }

    /** The caller's side of the bargain: a pointer into the zone is one that the zone gave out. */
    ghost predicate Known(ptr: Link)
      reads this
    {
      ptr.At? && InZone(ptr.addr) ==> ptr.addr - headerSize in tiles
    }

    method Release(chunk: nat)
      requires Valid() && chunk in tiles && headers[chunk].inUse
      modifies this`headers, this`freeList, this`free, this`tiles, this`heapUsage, arena
      ensures Valid()
      ensures Objects() == old(Objects()) - {chunk + headerSize}
      ensures if old(End(tiles, chunk, headerSize) == heapUsage)
              then heapUsage == chunk && tiles == old(tiles) - {chunk} && free == old(free)
              else heapUsage == old(heapUsage) && tiles == old(tiles) && free == [chunk] + old(free)
      ensures old(End(tiles, chunk, headerSize) == heapUsage) || HasFree(old(tiles[chunk]))
    {
      hide Platform, Pow2, Tiling, OnlyHeaders, ObjectsOf, FreeList, Multiple, Fits, AlignedTiles, HaveHeaders,
           SizesMatch, ListOfTiles, FreeMatches, Freed, RoomInWindow;
      ghost var was, hs, list, usage := tiles, headers, free, heapUsage;
      ChunkAt(chunk);
      IsFree(free, tiles, headers, {}, chunk);
      DropKeepsAligned(tiles, chunk, alignment);
      FreeChunk(chunk);
      Released(old(arena[..]), arena[..], was, tiles, hs, headers, list, free, usage, heapUsage, headerSize, chunk);
      if End(was, chunk, headerSize) != usage {
        assert free[0] == chunk;
        RoomInFirst(tiles, headers, free, heapUsage, headerSize);
      }
    }

    /** `zone_free` */
    method Free(ptr: Link) returns (ok: bool)
      requires Valid() && Known(ptr)
      modifies this, arena
      ensures Valid()
      ensures ok <==> ptr.At? && ptr.addr in old(Objects())
      ensures Objects() == if ok then old(Objects()) - {ptr.addr} else old(Objects())
      // The last chunk goes back to the end of the arena, any other to the front of the free list.
      ensures ok ==> ptr.addr >= headerSize && if old(ptr.addr + |Objects()[ptr.addr]| == heapUsage)
        then heapUsage == ptr.addr - headerSize && tiles == old(tiles) - {ptr.addr - headerSize} && free == old(free)
        else heapUsage == old(heapUsage) && tiles == old(tiles) && free == [ptr.addr - headerSize] + old(free)
      // What was freed can be allocated again.
      ensures ok ==> HasRoom(old(|Objects()[ptr.addr]|))
      ensures ok ==> old(ptr.addr + |Objects()[ptr.addr]| == heapUsage) || HasFree(old(|Objects()[ptr.addr]|))
      ensures maxHeapUsage == old(maxHeapUsage)
    {
      hide Tiling, Objects, FreeList, Multiple, AlignedTiles, HaveHeaders, SizesMatch, ListOfTiles, FreeMatches,
           RoomInWindow;
      if ptr.At? {
        OwnerOf(ptr.addr);
      }
      if ptr.Null? || !InZone(ptr.addr) {
        return false;
      }
      var chunk := ptr.addr - headerSize;
      ChunkAt(chunk);
      if !headers[chunk].inUse {
        return false;
      }
      Release(chunk);
      ok := true;
    }

    /** Right after an object has been freed, there is room for one of up to its size, without going beyond what
        the heap has used before. */
    method FreeThenAlloc(ptr: nat, size: nat) returns (again: Link)
      requires Valid() && ptr in Objects() && 0 < size <= |Objects()[ptr]|
      modifies this, arena
      ensures Valid() && again.At? && Added(Objects(), old(Objects()) - {ptr}, again.addr)
      ensures size <= |Objects()[again.addr]|
      ensures heapUsage <= old(heapUsage) && maxHeapUsage == old(maxHeapUsage)
    {
      hide Tiling, Objects, FreeList, Multiple, AlignedTiles, HaveHeaders, SizesMatch, ListOfTiles, FreeMatches, Added,
           RoundUp, RoomInWindow, Placed, LaidOut, Defragged, NoneFits, FirstOf;
      OwnerOf(ptr);
      ChunkAt(ptr - headerSize);
      ghost var length := |Objects()[ptr]|;
      AlignedChunk(tiles, ptr - headerSize, alignment);
      RoundsUpWithin(size, length, logAlign, sizeBits);
      var freed := Free(At(ptr));
      if HasFree(length) {
        RoomForLess(tiles, headers, free, heapUsage, headerSize, length, AlignSize(size));
      }
      ghost var sizes, list;
      again, sizes, list := Alloc(size);
    }

    /** `memcpy` or `memset` into a live object, or the owner's own stores. */
    method Store(ptr: nat, at: nat, data: seq<byte>)
      requires Valid() && ptr in Objects() && at + |data| <= |Objects()[ptr]|
      modifies this`headers, arena
      ensures Valid()
      ensures Objects() == old(Objects())[ptr := Patched(old(Objects()[ptr]), at, data)]
    {
      hide Platform, Pow2, Tiling, ObjectsOf, FreeList, Multiple, AlignedTiles, HaveHeaders, SizesMatch, ListOfTiles,
           FreeMatches, Patched, Overwritten, Fits, HeadersStay, Live;
      ghost var chunk, hs := ptr - headerSize, headers;
      OwnerOf(ptr);
      LiveChunk(tiles, headers, chunk);
      ChunkAt(chunk);
      TilesFit(arena[..], tiles, heapUsage, headerSize);
      StoreBytes(ptr + at, data);
      StoredIntoObject(old(arena[..]), arena[..], tiles, hs, headers, free, freeList, heapUsage, headerSize, ptr, at,
                       data);
    }

    method StoreBytes(p: nat, data: seq<byte>)
      requires p + |data| <= arena.Length
      modifies this`headers, arena
      ensures arena[..] == Patched(old(arena[..]), p, data)
      ensures headers == Overwritten(old(headers), p, p + |data|, headerSize)
    {
      hide Platform, Pow2, Overwritten, Patched;
      for i := 0 to |data|
        invariant headers == old(headers)
        invariant forall k :: 0 <= k < i ==> arena[p + k] == data[k]
        invariant forall k :: 0 <= k < arena.Length && (k < p || p + i <= k) ==> arena[k] == old(arena[k])
      {
        arena[p + i] := data[i];
      }
      headers := Overwritten(headers, p, p + |data|, headerSize);
      PatchedIs(old(arena[..]), arena[..], p, data);
    }

    /** The last chunk is stretched into the unused end of the arena. */
    method StretchLast(chunk: nat, size: nat) returns (ok: bool)
      requires Valid() && chunk in tiles && headers[chunk].inUse && End(tiles, chunk, headerSize) == heapUsage
      requires tiles[chunk] < size && Multiple(size, alignment)
      modifies this`headers, this`tiles, this`heapUsage, this`maxHeapUsage, arena
      ensures Valid()
      ensures ok <==> old(heapUsage) + (size - old(tiles[chunk])) <= arena.Length
      ensures tiles == if ok then old(tiles)[chunk := size] else old(tiles)
      ensures chunk in headers && headers[chunk].inUse
      ensures Grown(Objects(), old(Objects()), chunk + headerSize)
    {
      hide Platform, Pow2, Tiling, OnlyHeaders, ObjectsOf, FreeList, Multiple, Fits, AlignedTiles, HaveHeaders,
           SizesMatch, ListOfTiles, FreeMatches, Grown, HeaderSet, FlagsStay;
      ghost var was, hs, usage := tiles, headers, heapUsage;
      ChunkAt(chunk);
      GrownByNothing(Objects(), chunk + headerSize);
      GrowKeepsTiling(tiles, heapUsage, headerSize, chunk, size);
      StretchKeepsAligned(tiles, chunk, size, alignment);
      var place := ExtendSpace(size - headers[chunk].size);
      if place.Null? {
        return false;
      }
      tiles := tiles[chunk := size];
      SameKeys(was, chunk, size, headers);
      UpdateHeader(chunk, headers[chunk].(size := size));
      SetHeader(headers, hs, tiles, chunk, hs[chunk].(size := size));
      TilesFit(arena[..], tiles, heapUsage, headerSize);
      Stretched(old(arena[..]), arena[..], was, hs, headers, free, freeList, usage, headerSize, chunk, size);
      ok := true;
    }

    /** The last chunk can grow as far as the arena goes, any other up to the next chunk in use. */
    ghost predicate CanGrow(chunk: nat, size: nat)
      reads this
      requires Located() && chunk in tiles
    {
      if End(tiles, chunk, headerSize) == heapUsage then heapUsage + size <= arena.Length + tiles[chunk]
      else chunk + headerSize + size <= FreeEnd(tiles, headers, heapUsage, chunk, headerSize)
    }

    /** Growing an object where it is: at the end of the heap by taking unused space, elsewhere by
        absorbing the free chunks that follow it. */
    method GrowInPlace(chunk: nat, size: nat) returns (ok: bool)
      requires Valid() && chunk in tiles && headers[chunk].inUse
      requires tiles[chunk] < size && Multiple(size, alignment)
      modifies this, arena
      ensures Valid() && chunk in tiles && chunk in headers && headers[chunk].inUse
      ensures ok <==> old(CanGrow(chunk, size))
      ensures ok ==> size <= tiles[chunk] <= size + headerSize
      ensures if ok then SameBut(Objects(), old(Objects()), chunk + headerSize)
              else Grown(Objects(), old(Objects()), chunk + headerSize)
      ensures tiles[chunk] >= old(tiles[chunk])
    {
      hide Tiling, Objects, FreeList, Multiple, AlignedTiles, HaveHeaders, SizesMatch, ListOfTiles, FreeMatches, Grown,
           SameBut, FreeEnd, Coalesced, Settled, Among, OthersStay;
      ObjectSize(chunk);
      ChunkAt(chunk);
      if chunk + headerSize + headers[chunk].size == heapUsage {
        ok := StretchLast(chunk, size);
        GrownIsSameBut(Objects(), old(Objects()), chunk + headerSize);
      } else {
        CoalesceChunks(chunk);
        ghost var grown := Objects();
        ChunkAt(chunk);
        IsFree(free, tiles, headers, {}, chunk);
        ok := size <= headers[chunk].size;
        if ok {
          SplitChunk(chunk, size, {});
          ObjectSize(chunk);
          ShrunkAfterGrowth(old(Objects()), grown, Objects(), chunk + headerSize);
        }
      }
    }

    /** The object at `ptr` moves to a new place, which `Alloc` picks. */
    method Move(ptr: nat, oldSize: nat, size: nat) returns (place: Link, ghost sizes: Tiles, ghost list: seq<nat>)
      requires Valid() && ptr in Objects() && oldSize <= |Objects()[ptr]| && oldSize <= size
      modifies this, arena
      ensures Valid()
      ensures place.Null? ==> Objects() == old(Objects())
      ensures place.Null? ==> size == 0 || size > arena.Length || NoRoomFor(AlignSize(size))
      ensures size > arena.Length ==> place.Null?
      ensures place.At? ==> place.addr !in old(Objects()) && place.addr in Objects()
      ensures place.At? ==> Objects() - {place.addr} == old(Objects()) - {ptr}
      ensures place.At? ==> size <= |Objects()[place.addr]| <= AlignSize(size) + headerSize
      ensures 0 < size <= arena.Length ==>
        Defragged(sizes, list, old(tiles), old(headers), old(free), old(heapUsage), headerSize)
      ensures 0 < size <= arena.Length && old(HasFree(AlignSize(size))) ==>
        place.At? && !NoneFits(FirstOf(list), sizes, AlignSize(size)) && SameEnd(old(heapUsage), old(maxHeapUsage))
      ensures place.At? ==> Placed(sizes, list, old(heapUsage), place.addr, AlignSize(size))
      ensures place.At? ==> Objects()[place.addr][..oldSize] == old(Objects()[ptr])[..oldSize]
      ensures place.At? ==> Multiple(place.addr, alignment)
    {
      hide Tiling, Objects, FreeList, Multiple, AlignedTiles, HaveHeaders, SizesMatch, ListOfTiles, FreeMatches,
           RoomInWindow, Placed, LaidOut, Defragged, NoneFits, FirstOf;
      place, sizes, list := Alloc(size);
      if place.Null? {
        return;
      }
      var content := ReadObject(ptr, oldSize);
      Store(place.addr, 0, content);
      OwnerOf(ptr);
      var freed := Free(At(ptr));
    }

    /** The bytes that `memcpy` reads. */
    method ReadObject(ptr: nat, n: nat) returns (content: seq<byte>)
      requires Valid() && ptr in Objects() && n <= |Objects()[ptr]|
      ensures content == Objects()[ptr][..n]
    {
      hide Platform, Tiling, FreeList, AlignedTiles, HaveHeaders, SizesMatch, ListOfTiles, FreeMatches, Objects;
      ObjectBytes(ptr, n);
      content := arena[ptr..ptr + n];
    }

    lemma ObjectBytes(ptr: nat, n: nat)
      requires Valid() && ptr in Objects() && n <= |Objects()[ptr]|
      ensures ptr + n <= arena.Length && Objects()[ptr][..n] == arena[ptr..ptr + n]
    {
      hide Platform, Pow2, Tiling, FreeList, AlignedTiles, HaveHeaders, SizesMatch, ListOfTiles, FreeMatches,
           ObjectsOf, Fits;
      TilesFit(arena[..], tiles, heapUsage, headerSize);
      BytesOfObject(arena[..], tiles, headers, headerSize, ptr, n);
    }

    lemma OwnerOf(ptr: nat)
      requires Valid()
      ensures ptr in Objects() <==> headerSize <= ptr && Live(tiles, headers, ptr - headerSize)
      ensures ptr in Objects() ==> Known(At(ptr)) && InZone(ptr) && |Objects()[ptr]| == tiles[ptr - headerSize]
    {
      hide Tiling, FreeList, Multiple, AlignedTiles, ObjectsOf, Fits, HaveHeaders, SizesMatch, ListOfTiles,
           FreeMatches;
      TilesFit(arena[..], tiles, heapUsage, headerSize);
      PayloadsNotEmpty(tiles, heapUsage, headerSize);
      if headerSize <= ptr {
        SizeOfObject(arena[..], tiles, headers, headerSize, ptr - headerSize);
      }
    }

    /** An object is made smaller where it is. */
    method Shrink(chunk: nat, size: nat)
      requires Valid() && chunk in tiles && headers[chunk].inUse && 0 < size <= tiles[chunk]
      requires Multiple(size, alignment)
      modifies this`headers, this`freeList, this`free, this`tiles, this`heapUsage, arena
      ensures Valid() && Moved(Objects(), old(Objects()), chunk + headerSize, chunk + headerSize, size)
      ensures |Objects()[chunk + headerSize]| <= size + headerSize
      ensures Trimmed(tiles, free, heapUsage, old(tiles), old(free), old(heapUsage), headerSize, chunk, size)
      ensures old(tiles[chunk]) <= size + headerSize ==> Objects() == old(Objects()) && heapUsage == old(heapUsage)
    {
      hide Tiling, Objects, FreeList, Multiple, AlignedTiles, HaveHeaders, SizesMatch, ListOfTiles, FreeMatches,
           SameBut, Moved, OthersStay, CutShape;
      ObjectSize(chunk);
      ChunkAt(chunk);
      IsFree(free, tiles, headers, {}, chunk);
      SplitChunk(chunk, size, {});
      ObjectSize(chunk);
      MovedInPlace(Objects(), old(Objects()), chunk + headerSize, size);
    }

    /** An object is made larger: it grows where it is or else moves. */
    method Enlarge(chunk: nat, size: nat) returns (place: Link)
      requires Valid() && chunk in tiles && headers[chunk].inUse && tiles[chunk] < size && Multiple(size, alignment)
      modifies this, arena
      ensures Valid()
      ensures old(CanGrow(chunk, size)) ==> place == At(chunk + headerSize)
      ensures place.Null? ==> size > arena.Length || NoRoomFor(AlignSize(size))
      ensures place.Null? ==> Grown(Objects(), old(Objects()), chunk + headerSize)
      ensures place.At? ==> Moved(Objects(), old(Objects()), chunk + headerSize, place.addr, size)
      ensures place.At? ==> |Objects()[place.addr]| <= size + headerSize && Multiple(place.addr, alignment)
    {
      hide Tiling, Objects, FreeList, Multiple, AlignedTiles, HaveHeaders, SizesMatch, ListOfTiles, FreeMatches,
           SameBut, Grown, Moved, Added, CanGrow, NoRoomFor, OthersStay, RoomInWindow, Placed, Defragged, NoneFits,
           FirstOf, Trimmed, RoundUp;
      AlignedChunk(tiles, chunk, alignment);
      MultiplesAdd(chunk, headerSize, alignment);
      ObjectSize(chunk);
      ChunkAt(chunk);
      var ptr, oldSize := chunk + headerSize, headers[chunk].size;
      var ok := GrowInPlace(chunk, size);
      ObjectSize(chunk);
      if ok {
        MovedInPlace(Objects(), old(Objects()), ptr, size);
        return At(ptr);
      }
      ghost var grown := Objects();
      ghost var sizes, list;
      place, sizes, list := Move(ptr, oldSize, size);
      if place.At? {
        RoundUpIsLeastMultiple(size, logAlign, sizeBits);
        MovedAfterGrowth(old(Objects()), grown, Objects(), ptr, place.addr, size);
      }
    }

    /** `zone_realloc` once its arguments have been checked. */
    method Resize(chunk: nat, size: nat) returns (place: Link)
      requires Valid() && chunk in tiles && headers[chunk].inUse && size > 0 && Multiple(size, alignment)
      modifies this, arena
      ensures Valid()
      ensures old(tiles[chunk] >= size || CanGrow(chunk, size)) ==> place == At(chunk + headerSize)
      ensures place.Null? ==> size > arena.Length || NoRoomFor(AlignSize(size))
      ensures place.Null? ==> Grown(Objects(), old(Objects()), chunk + headerSize)
      ensures place.At? ==> Moved(Objects(), old(Objects()), chunk + headerSize, place.addr, size)
      ensures place.At? ==> |Objects()[place.addr]| <= size + headerSize && Multiple(place.addr, alignment)
      // A smaller size cuts the chunk if that leaves more than a header.
      ensures old(tiles[chunk]) >= size ==>
        Trimmed(tiles, free, heapUsage, old(tiles), old(free), old(heapUsage), headerSize, chunk, size)
      ensures size <= old(tiles[chunk]) <= size + headerSize ==>
        Objects() == old(Objects()) && heapUsage == old(heapUsage)
    {
      hide Tiling, Objects, FreeList, Multiple, AlignedTiles, HaveHeaders, SizesMatch, ListOfTiles, FreeMatches,
           Grown, Moved, CanGrow, NoRoomFor, Trimmed;
      AlignedChunk(tiles, chunk, alignment);
      MultiplesAdd(chunk, headerSize, alignment);
      ChunkAt(chunk);
      if size <= headers[chunk].size {
        Shrink(chunk, size);
        return At(chunk + headerSize);
      }
      place := Enlarge(chunk, size);
    }

    ghost predicate FitsOrGrows(ptr: nat, size: nat)
      reads this
      requires Located()
    {
      headerSize <= ptr &&
      var chunk := ptr - headerSize;
      chunk in tiles && (tiles[chunk] >= size || CanGrow(chunk, size))
    }

    /** `zone_realloc` */
    method Realloc(ptr: Link, size: nat) returns (place: Link, ghost sizes: Tiles, ghost list: seq<nat>)
      requires Valid() && Known(ptr)
      modifies this, arena
      ensures Valid()
      // A NULL pointer asks for a new object.
      ensures ptr.Null? && place.Null? ==> Objects() == old(Objects())
      ensures ptr.Null? && place.Null? ==> size == 0 || size > arena.Length || NoRoomFor(AlignSize(size))
      ensures ptr.Null? && 0 < size <= arena.Length && old(HasRoom(AlignSize(size))) ==> place.At?
      ensures ptr.Null? && 0 < size <= arena.Length && old(HasFree(AlignSize(size))) ==>
        place.At? && !NoneFits(FirstOf(list), sizes, AlignSize(size)) && SameEnd(old(heapUsage), old(maxHeapUsage))
      ensures ptr.Null? && 0 < size <= arena.Length ==>
        Defragged(sizes, list, old(tiles), old(headers), old(free), old(heapUsage), headerSize)
      ensures ptr.Null? && place.At? ==>
        Placed(sizes, list, old(heapUsage), place.addr, AlignSize(size)) &&
        LaidOut(sizes, list, old(heapUsage), place.addr, AlignSize(size))
      ensures ptr.Null? && place.At? ==> Added(Objects(), old(Objects()), place.addr) && size <= |Objects()[place.addr]|
      // A pointer that is not live is refused, and so is a size beyond the arena.
      ensures ptr.At? && (ptr.addr !in old(Objects()) || size > arena.Length) ==>
        place.Null? && Objects() == old(Objects())
      // Size 0 frees the object.
      ensures ptr.At? && ptr.addr in old(Objects()) && size == 0 ==>
        place.Null? && Objects() == old(Objects()) - {ptr.addr}
      // An object that is large enough or can grow where it is stays there; any other is refused only for
      // want of room elsewhere.
      ensures ptr.At? && ptr.addr in old(Objects()) && 0 < size <= arena.Length ==>
        (old(FitsOrGrows(ptr.addr, AlignSize(size))) ==> place == ptr) &&
        (place.Null? ==> AlignSize(size) > arena.Length || NoRoomFor(AlignSize(size)))
      // Failure leaves every object as it was; this one may have gained room.
      ensures ptr.At? && place.Null? && size > 0 ==> Grown(Objects(), old(Objects()), ptr.addr)
      // Success keeps the contents up to the smaller of the two sizes, wherever the object now is.
      ensures ptr.At? && place.At? ==> Moved(Objects(), old(Objects()), ptr.addr, place.addr, size)
      ensures place.At? ==> Multiple(place.addr, alignment)
      // The object is as large as asked for, but for less than a header and a byte, and is cut if it was larger.
      ensures place.At? ==> AlignSize(size) <= |Objects()[place.addr]| <= AlignSize(size) + headerSize
      ensures ptr.At? && place.At? && AlignSize(size) <= |old(Objects())[ptr.addr]| <= AlignSize(size) + headerSize ==>
        Objects() == old(Objects()) && heapUsage == old(heapUsage)
    {
      hide Tiling, Objects, FreeList, Multiple, AlignedTiles, HaveHeaders, SizesMatch, ListOfTiles, FreeMatches,
           RoundUp, Grown, Added, Agree, CanGrow, NoRoomFor, HasRoom, RoomInWindow, Placed, LaidOut, Defragged,
           NoneFits, FirstOf, Trimmed;
      sizes, list := tiles, free;
      GrownByNothing(Objects(), if ptr.At? then ptr.addr else 0);
      if ptr.At? && !InZone(ptr.addr) {
        OwnerOf(ptr.addr);
        return Null, tiles, free;
      }
      if size > arena.Length {
        return Null, tiles, free;
      }
      if ptr.Null? {
        place, sizes, list := Alloc(size);
        return;
      }
      OwnerOf(ptr.addr);
      if size == 0 {
        var freed := Free(ptr);
        return Null, tiles, free;
      }
      var chunk := ptr.addr - headerSize;
      ChunkAt(chunk);
      if !headers[chunk].inUse {
        return Null, tiles, free;
      }
      RoundUpIsLeastMultiple(size, logAlign, sizeBits);
      var rounded := AlignSize(size);
      if rounded == 0 {
        assert false;
      }
      if rounded <= arena.Length {
        RoundUpIsLeastMultiple(rounded, logAlign, sizeBits);
      }
      place := Resize(chunk, rounded);
    }

    /** `zone_calloc`: the product of the two sizes is formed in a `size_t`. */
    method Calloc(nmemb: nat, size: nat) returns (ptr: Link, ghost sizes: Tiles, ghost list: seq<nat>)
      requires Valid() && nmemb <= sizeMax && size <= sizeMax
      modifies this, arena
      ensures Valid()
      ensures ptr.Null? ==> Objects() == old(Objects())
      ensures var total := TrueProduct(nmemb, size);
        && (total > arena.Length || total == 0 ==> ptr.Null?)
        && (ptr.Null? ==> total == 0 || total > arena.Length || NoRoomFor(AlignSize(total)))
        && (0 < total <= arena.Length && old(HasRoom(AlignSize(total))) ==> ptr.At?)
        && (0 < total <= arena.Length && old(HasFree(AlignSize(total))) ==>
              ptr.At? && !NoneFits(FirstOf(list), sizes, AlignSize(total)) &&
              SameEnd(old(heapUsage), old(maxHeapUsage)))
        && (0 < total <= arena.Length ==>
              Defragged(sizes, list, old(tiles), old(headers), old(free), old(heapUsage), headerSize))
        && (ptr.At? ==>
              Placed(sizes, list, old(heapUsage), ptr.addr, AlignSize(total)) &&
              LaidOut(sizes, list, old(heapUsage), ptr.addr, AlignSize(total)))
        && (ptr.At? ==> Added(Objects(), old(Objects()), ptr.addr) && StartsWithZeros(Objects()[ptr.addr], total))
    {
      hide Tiling, Objects, FreeList, Multiple, AlignedTiles, HaveHeaders, SizesMatch, ListOfTiles, FreeMatches,
           RoundUp, NoRoomFor, HasRoom, StartsWithZeros, Patched, RoomInWindow, Placed, Defragged, NoneFits, FirstOf,
           BestFit, Trimmed;
      sizes, list := tiles, free;
      var total, ok := Product(nmemb, size, Pow2(sizeBits));
      if !ok {
        ptr := Null;
        return;
      }
      ptr, sizes, list := Alloc(total);
      if ptr.At? {
        ZerosAtFront(Objects()[ptr.addr], seq(total, _ => 0));
        Store(ptr.addr, 0, seq(total, _ => 0));
      }
    }

    /** Between the pointer of one chunk and that of the next there is no other pointer. */
    lemma PointersApart(chunk: nat)
      requires Valid() && chunk in tiles
      ensures forall p :: p in Objects() ==> p <= chunk + headerSize || End(tiles, chunk, headerSize) + headerSize <= p
    {
      hide Tiling, Objects, FreeList, Multiple, AlignedTiles, HaveHeaders, SizesMatch, ListOfTiles, FreeMatches;
      forall p | p in Objects()
        ensures p <= chunk + headerSize || End(tiles, chunk, headerSize) + headerSize <= p
      {
        OwnerOf(p);
        if p - headerSize != chunk {
          TilesMiss(tiles, heapUsage, headerSize, chunk, p - headerSize);
        }
      }
    }

    lemma PointersInZone()
      requires Valid()
      ensures forall p :: p in Objects() ==> headerSize <= p < heapUsage
    {
      hide Tiling, Objects, FreeList, Multiple, AlignedTiles, HaveHeaders, SizesMatch, ListOfTiles, FreeMatches;
      forall p | p in Objects()
        ensures headerSize <= p < heapUsage
      {
        OwnerOf(p);
      }
    }

    lemma AllPointersBelow(limit: nat)
      requires Valid() && heapUsage <= limit
      ensures Total(Objects(), limit) == Total(Objects(), heapUsage)
      ensures Below(Objects(), limit) == Objects().Keys
    {
      hide Tiling, Objects, FreeList, Multiple, AlignedTiles, HaveHeaders, SizesMatch, ListOfTiles, FreeMatches;
      PointersInZone();
      NothingBetween(Objects(), heapUsage, limit);
    }

    /** One chunk more: one header more, and if it is in use one object with its payload. */
    lemma NextChunkCounts(chunk: nat)
      requires Valid() && chunk in tiles
      ensures var next, counts := End(tiles, chunk, headerSize), headers[chunk].inUse;
              && chunk < next <= heapUsage && (next == heapUsage || next in tiles)
              && headerSize * |TilesBelow(tiles, next)| == headerSize * |TilesBelow(tiles, chunk)| + headerSize
              && Total(Objects(), next + headerSize) ==
                 Total(Objects(), chunk + headerSize) + (if counts then tiles[chunk] else 0)
              && |Below(Objects(), next + headerSize)| ==
                 |Below(Objects(), chunk + headerSize)| + (if counts then 1 else 0)
    {
      hide Tiling, Objects, FreeList, Multiple, AlignedTiles, HaveHeaders, SizesMatch, ListOfTiles, FreeMatches, Total,
           Below, TilesBelow;
      ObjectSize(chunk);
      ChunkAt(chunk);
      PayloadsNotEmpty(tiles, heapUsage, headerSize);
      PointersApart(chunk);
      OneMoreTileBelow(tiles, heapUsage, headerSize, chunk);
      Distribute(headerSize, |TilesBelow(tiles, chunk)|);
      OneBetween(Objects(), chunk + headerSize, End(tiles, chunk, headerSize) + headerSize);
    }

    /** The counts of `heapmem_zone_stats` up to the chunk at `chunk`. */
    ghost predicate Counted(chunk: nat, live: nat, overhead: nat, available: nat, count: nat)
      reads this, arena
      requires Located()
    {
      && live + overhead + available == chunk <= heapUsage && (chunk == heapUsage || chunk in tiles)
      && overhead == headerSize * |TilesBelow(tiles, chunk)|
      && live == Total(Objects(), chunk + headerSize) && count == |Below(Objects(), chunk + headerSize)|
    }

    lemma CountStarts()
      requires Valid()
      ensures Counted(0, 0, 0, 0, 0)
    {
      hide Tiling, Objects, FreeList, Multiple, AlignedTiles, HaveHeaders, SizesMatch, ListOfTiles, FreeMatches, Total,
           Below, TilesBelow;
      NoTilesBelow(tiles);
      PointersInZone();
      NothingBelowZero(Objects());
      NothingBetween(Objects(), 0, headerSize);
      FirstChunk(tiles, heapUsage, headerSize);
    }

    lemma CountGoesOn(chunk: nat, live: nat, overhead: nat, available: nat, count: nat)
      requires Valid() && chunk in tiles && Counted(chunk, live, overhead, available, count)
      ensures chunk in headers && headers[chunk].size == tiles[chunk]
      ensures var next, size := End(tiles, chunk, headerSize), tiles[chunk];
        && chunk < next <= heapUsage
        && if headers[chunk].inUse then Counted(next, live + size, overhead + headerSize, available, count + 1)
           else Counted(next, live, overhead + headerSize, available + size, count)
    {
      hide Tiling, Objects, FreeList, Multiple, AlignedTiles, HaveHeaders, SizesMatch, ListOfTiles, FreeMatches, Total,
           Below, TilesBelow;
      ChunkAt(chunk);
      NextChunkCounts(chunk);
    }

    lemma CountEnds(live: nat, overhead: nat, available: nat, count: nat)
      requires Valid() && Counted(heapUsage, live, overhead, available, count)
      ensures live + overhead + available == heapUsage && overhead == headerSize * |tiles|
      ensures live == Total(Objects(), arena.Length) && count == |Objects()|
    {
      hide Tiling, Objects, FreeList, Multiple, AlignedTiles, HaveHeaders, SizesMatch, ListOfTiles, FreeMatches, Total,
           Below, TilesBelow;
      AllTilesBelow(tiles, heapUsage, headerSize);
      AllPointersBelow(heapUsage + headerSize);
      AllPointersBelow(arena.Length);
    }

    /** The chunks behind an unused one are absorbed, which changes no count. */
    method CoalesceUnused(chunk: nat, ghost live: nat, ghost overhead: nat, ghost available: nat, ghost count: nat)
      requires Valid() && chunk in tiles && !headers[chunk].inUse && Counted(chunk, live, overhead, available, count)
      modifies this`headers, this`freeList, this`free, this`tiles, arena
      ensures Valid() && Objects() == old(Objects())
      ensures chunk in tiles && chunk in headers && !headers[chunk].inUse
      ensures Counted(chunk, live, overhead, available, count)
      ensures Settled(tiles, headers, heapUsage, headerSize, chunk)
      ensures old(SettledBelow(tiles, headers, heapUsage, headerSize, chunk)) ==>
        SettledBelow(tiles, headers, heapUsage, headerSize, chunk)
    {
      hide Tiling, Objects, FreeList, Multiple, AlignedTiles, HaveHeaders, SizesMatch, ListOfTiles, FreeMatches, Grown,
           Total, Below, TilesBelow, Coalesced, FreeEnd, Settled, Among, SettledBelow;
      ghost var was, hs := tiles, headers;
      ChunkAt(chunk);
      UnusedIsNoObject(chunk);
      CoalesceChunks(chunk);
      ChunkAt(chunk);
      CoalescedKeepsBelow(tiles, headers, was, hs, chunk, headerSize);
      if SettledBelow(was, hs, heapUsage, headerSize, chunk) {
        SettledBelowStays(tiles, headers, was, hs, heapUsage, headerSize, chunk);
      }
      UnownedIsUnchanged(Objects(), old(Objects()), chunk + headerSize);
    }

    /** `heapmem_zone_stats` */
    method Stats() returns (stats: Statistics)
      requires Valid()
      modifies this`headers, this`freeList, this`free, this`tiles, arena
      ensures Valid() && Objects() == old(Objects())
      ensures stats.live + stats.overhead + stats.available == arena.Length
      ensures stats.live == Total(Objects(), arena.Length) && stats.chunks == |Objects()|
      ensures stats.overhead == headerSize * |tiles|
      ensures stats.heapUsage == heapUsage && stats.maxHeapUsage == maxHeapUsage
      // No unused chunk is followed by another.
      ensures forall a :: a in tiles && a in headers && !headers[a].inUse ==>
        Settled(tiles, headers, heapUsage, headerSize, a)
    {
      hide Tiling, Objects, FreeList, Multiple, AlignedTiles, HaveHeaders, SizesMatch, ListOfTiles, FreeMatches, Total,
           Counted, Settled, SettledBelow;
      var live: nat, overhead: nat, available: nat, count: nat := 0, 0, 0, 0;
      var chunk: nat := 0;
      CountStarts();
      CountIsAt(0, 0, 0, 0, 0);
      NoneBelowZero(tiles, headers, heapUsage, headerSize);
      while chunk < heapUsage
        invariant Valid() && Objects() == old(Objects())
        invariant chunk <= heapUsage && (chunk == heapUsage || chunk in tiles)
        invariant Counted(chunk, live, overhead, available, count)
        invariant SettledBelow(tiles, headers, heapUsage, headerSize, chunk)
        decreases heapUsage - chunk
      {
        ChunkAt(chunk);
        if !headers[chunk].inUse {
          CoalesceUnused(chunk, live, overhead, available, count);
        }
        CountGoesOn(chunk, live, overhead, available, count);
        NextIsSettled(tiles, headers, heapUsage, headerSize, chunk);
        overhead := overhead + headerSize;
        if headers[chunk].inUse {
          live := live + headers[chunk].size;
          count := count + 1;
        } else {
          available := available + headers[chunk].size;
        }
        chunk := chunk + headerSize + headers[chunk].size;
        CountIsAt(chunk, live, overhead, available, count);
      }
      CountEnds(live, overhead, available, count);
      AllAreSettled(tiles, headers, heapUsage, headerSize);
      available := available + (arena.Length - heapUsage);
      stats := Statistics(live, overhead, available, heapUsage, maxHeapUsage, count);
    }

    lemma CountIsAt(chunk: nat, live: nat, overhead: nat, available: nat, count: nat)
      requires Located() && Counted(chunk, live, overhead, available, count)
      ensures chunk <= heapUsage && (chunk == heapUsage || chunk in tiles)
    {
    }

    // -------------------------------------------------------------------------------------------
    // What `Valid` means to the users of the heap

    /** Two objects never overlap: between them there is room for a header at least. */
    lemma ObjectsDisjoint(p: nat, q: nat)
      requires Valid() && p in Objects() && q in Objects() && p < q
      ensures p + |Objects()[p]| + headerSize <= q
      ensures q + |Objects()[q]| <= heapUsage <= arena.Length
    {
      hide Tiling, Objects, FreeList, Multiple, AlignedTiles, HaveHeaders, SizesMatch, ListOfTiles, FreeMatches;
      OwnerOf(p);
      OwnerOf(q);
      TilesOrdered(tiles, heapUsage, headerSize, p - headerSize, q - headerSize);
      TileContinued(tiles, heapUsage, headerSize, q - headerSize);
    }

    /** Each used byte of the arena belongs to exactly one chunk. */
    lemma ChunksTileTheHeap(i: nat)
      requires Valid() && i < heapUsage
      ensures exists a :: a in tiles && a <= i < End(tiles, a, headerSize)
      ensures forall a, b :: a in tiles && b in tiles ==>
        a <= i < End(tiles, a, headerSize) && b <= i < End(tiles, b, headerSize) ==> a == b
    {
      TilesCover(tiles, heapUsage, headerSize, i);
    }

    /** Following `next` from `free_list` reaches each unused chunk, reaches none twice, and ends. */
    lemma FreeListReachesUnused(a: nat)
      requires Valid()
      ensures a in tiles && !headers[a].inUse <==> exists n: nat :: n < |free| && Follow(headers, freeList, n) == At(a)
      ensures Follow(headers, freeList, |free|) == Null
      ensures forall m: nat, n: nat :: m < n < |free| ==> Follow(headers, freeList, m) != Follow(headers, freeList, n)
    {
      hide Tiling, AlignedTiles, SizesMatch, Multiple, FreeList, Follow;
      DistinctOnList(free, headers, freeList);
      forall n: nat
        ensures Follow(headers, freeList, n) == LinkAt(free, n)
      {
        FollowVisitsAll(free, headers, freeList, n);
      }
      if a in free {
        var n :| 0 <= n < |free| && free[n] == a;
        assert Follow(headers, freeList, n) == At(a);
      }
    }
  }
}
