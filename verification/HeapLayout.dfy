/** What a heap zone of os/lib/heapmem.c looks like in memory: a run of chunks, each a header
    followed by its payload, and a doubly linked free list threaded through the headers.
    Everything here is about values; HeapMem.dfy updates them in place. */
module HeapLayout {
  import opened Bits

  type byte = b: int | 0 <= b < 256

  /** A `chunk_t *`, as an offset from `heap_base`. */
  datatype Link = Null | At(addr: nat)

  datatype Header = Header(prev: Link, next: Link, size: nat, inUse: bool)

  /** The arena seen as headers: the addresses at which a header was stored and has not been
      overwritten, in whole or in part, since. */
  type Headers = map<nat, Header>

  /** Two headers of `h` bytes at `a` and `b` do not overlap. */
  predicate Apart(a: nat, b: nat, h: nat) {
    a + h <= b || b + h <= a
  }

  /** Storing a header destroys every other header it overlaps. */
  function Stored(hs: Headers, a: nat, hd: Header, h: nat): (r: Headers)
    ensures a in r && r[a] == hd
    ensures forall k :: k in hs && k != a && Apart(k, a, h) ==> k in r && r[k] == hs[k]
  {
    (map k | k in hs && Apart(k, a, h) :: hs[k])[a := hd]
  }

  /** Storing plain bytes into [lo, hi) destroys every header they touch. */
  function Overwritten(hs: Headers, lo: nat, hi: nat, h: nat): (r: Headers)
    ensures forall k :: k in hs && (k + h <= lo || hi <= k) ==> k in r && r[k] == hs[k]
  {
    map k | k in hs && (k + h <= lo || hi <= k) :: hs[k]
  }

  // ---------------------------------------------------------------------------------------------
  // The run of chunks

  /** The payload size of the chunk at each address. */
  type Tiles = map<nat, nat>

  /** `NEXT_CHUNK`: the first address after the chunk at `a`. */
  function End(tiles: Tiles, a: nat, h: nat): nat
    requires a in tiles
  {
    a + h + tiles[a]
  }

  /** The chunk at `a` is the last one, or another chunk starts where it ends. */
  predicate Continued(tiles: Tiles, usage: nat, h: nat, a: nat)
    requires a in tiles
  {
    End(tiles, a, h) == usage || End(tiles, a, h) in tiles
  }

  /** The chunks, each with a non-empty payload, follow one another without gap or overlap from
      address 0 up to `usage`. */
  ghost predicate Tiling(tiles: Tiles, usage: nat, h: nat) {
    && (forall a :: a in tiles ==> tiles[a] > 0)
    && (forall a {:trigger Continued(tiles, usage, h, a)} :: a in tiles ==> Continued(tiles, usage, h, a))
    && (forall a :: a in tiles ==> End(tiles, a, h) <= usage)
    && (forall a, b :: a in tiles && b in tiles && a < b ==> End(tiles, a, h) <= b)
    && (usage > 0 ==> 0 in tiles)
  }

  /** Each chunk still has its header. */
  ghost predicate HaveHeaders(tiles: Tiles, hs: Headers) {
    forall a :: a in tiles ==> a in hs
  }

  ghost predicate SizesMatch(tiles: Tiles, hs: Headers) {
    forall a :: a in tiles ==> a in hs && hs[a].size == tiles[a]
  }

  lemma HasHeader(tiles: Tiles, hs: Headers, a: nat)
    requires HaveHeaders(tiles, hs) && a in tiles
    ensures a in hs
  {
  }

  lemma SizeMatches(tiles: Tiles, hs: Headers, a: nat)
    requires SizesMatch(tiles, hs) && a in tiles
    ensures a in hs && hs[a].size == tiles[a]
  {
  }

  /** What each chunk and each pair of chunks must meet. */
  lemma TilingIs(tiles: Tiles, usage: nat, h: nat)
    requires forall a :: a in tiles ==>
      tiles[a] > 0 && End(tiles, a, h) <= usage && Continued(tiles, usage, h, a)
    requires forall a, b :: a in tiles && b in tiles && a < b ==> End(tiles, a, h) <= b
    requires usage > 0 ==> 0 in tiles
    ensures Tiling(tiles, usage, h)
  {
  }

  lemma TileBounds(tiles: Tiles, usage: nat, h: nat)
    requires Tiling(tiles, usage, h)
    ensures forall a :: a in tiles ==> a < usage && End(tiles, a, h) <= usage
  {
  }

  lemma PayloadsNotEmpty(tiles: Tiles, usage: nat, h: nat)
    requires Tiling(tiles, usage, h)
    ensures forall a :: a in tiles ==> 0 < tiles[a] && a + h < usage
  {
    assert forall a :: a in tiles ==> End(tiles, a, h) <= usage;
  }

  lemma TileContinued(tiles: Tiles, usage: nat, h: nat, a: nat)
    requires Tiling(tiles, usage, h) && a in tiles
    ensures Continued(tiles, usage, h, a) && End(tiles, a, h) <= usage
  {
  }

  lemma FirstChunk(tiles: Tiles, usage: nat, h: nat)
    requires Tiling(tiles, usage, h)
    ensures usage == 0 || 0 in tiles
  {
  }

  lemma TilesApart(tiles: Tiles, usage: nat, h: nat, a: nat, b: nat)
    requires Tiling(tiles, usage, h) && a in tiles && b in tiles && a != b
    ensures Apart(a, b, h)
  {
    assert a < b ==> End(tiles, a, h) <= b;
    assert b < a ==> End(tiles, b, h) <= a;
  }

  /** Every byte of the used part of the arena belongs to one chunk, and to no other. */
  lemma TilesCover(tiles: Tiles, usage: nat, h: nat, i: nat)
    requires Tiling(tiles, usage, h) && i < usage
    ensures exists a :: a in tiles && a <= i < End(tiles, a, h)
    ensures forall a, b :: a in tiles && b in tiles && a <= i < End(tiles, a, h) && b <= i < End(tiles, b, h) ==> a == b
  {
    var a := CoveringTile(tiles, usage, h, i);
    assert a in tiles && a <= i < End(tiles, a, h);
  }

  lemma {:induction false} CoveringTile(tiles: Tiles, usage: nat, h: nat, i: nat) returns (a: nat)
    requires Tiling(tiles, usage, h) && i < usage
    ensures a in tiles && a <= i < End(tiles, a, h)
  {
    if i == 0 {
      a := 0;
    } else {
      a := CoveringTile(tiles, usage, h, i - 1);
      assert Continued(tiles, usage, h, a);
      if End(tiles, a, h) == i {
        a := i;
      }
    }
  }

  /** Two adjacent chunks become one, which also gains the header between them. */
  function Merged(tiles: Tiles, a: nat, h: nat): (r: Tiles)
    requires a in tiles && End(tiles, a, h) in tiles
    ensures forall x :: x in r <==> x == a || (x in tiles && x != End(tiles, a, h))
    ensures forall x :: x in r && x != a ==> r[x] == tiles[x]
    ensures r[a] == tiles[a] + h + tiles[End(tiles, a, h)]
  {
    var b := End(tiles, a, h);
    (tiles - {b})[a := tiles[a] + h + tiles[b]]
  }

  lemma MergedKeys(tiles: Tiles, h: nat, a: nat, usage: nat)
    requires Tiling(tiles, usage, h) && a in tiles && End(tiles, a, h) in tiles
    ensures Merged(tiles, a, h).Keys == tiles.Keys - {End(tiles, a, h)}
  {
    hide Tiling, Merged;
    PayloadsNotEmpty(tiles, usage, h);
  }

  /** The chunk at `a` has absorbed the unused chunks behind it, up to where it ends now, and nothing else
      has changed. */
  ghost predicate Coalesced(tiles': Tiles, hs': Headers, tiles: Tiles, hs: Headers, a: nat, h: nat)
    requires a in tiles'
  {
    && a in tiles
    && (forall x :: x in tiles' <==> x in tiles && !(a < x < End(tiles', a, h)))
    && (forall x :: x in tiles' && x != a ==> x in tiles && tiles'[x] == tiles[x])
    && (forall x :: x in tiles && a < x < End(tiles', a, h) ==> x in hs && !hs[x].inUse)
    && (forall x :: x in tiles' ==> x in hs && x in hs' && hs'[x].inUse == hs[x].inUse)
  }

  lemma NothingCoalesced(tiles: Tiles, hs: Headers, usage: nat, a: nat, h: nat)
    requires Tiling(tiles, usage, h) && a in tiles && HaveHeaders(tiles, hs)
    ensures Coalesced(tiles, hs, tiles, hs, a, h)
  {
    hide Tiling;
    forall x | x in tiles && a < x
      ensures End(tiles, a, h) <= x
    {
      TilesOrdered(tiles, usage, h, a, x);
    }
  }

  lemma OneMoreCoalesced(tiles2: Tiles, hs2: Headers, tiles1: Tiles, hs1: Headers, tiles: Tiles, hs: Headers,
                         usage: nat, a: nat, h: nat)
    requires Tiling(tiles1, usage, h) && a in tiles1 && End(tiles1, a, h) in tiles1
    requires Coalesced(tiles1, hs1, tiles, hs, a, h)
    requires tiles2 == Merged(tiles1, a, h) && !hs1[End(tiles1, a, h)].inUse
    requires forall x :: x in tiles2 ==> x in hs1 && x in hs2 && hs2[x].inUse == hs1[x].inUse
    ensures Coalesced(tiles2, hs2, tiles, hs, a, h)
  {
    hide Tiling, Merged;
    var next := End(tiles1, a, h);
    PayloadsNotEmpty(tiles1, usage, h);
    assert End(tiles2, a, h) == End(tiles1, next, h);
    forall x | x in tiles1 && next < x
      ensures End(tiles1, next, h) <= x
    {
      TilesOrdered(tiles1, usage, h, next, x);
    }
  }

  /** Where the unused chunks behind the chunk at `a` end. */
  ghost function FreeEnd(tiles: Tiles, hs: Headers, usage: nat, a: nat, h: nat): (e: nat)
    requires Tiling(tiles, usage, h) && a in tiles && HaveHeaders(tiles, hs)
    ensures End(tiles, a, h) <= e <= usage
    decreases usage - a
  {
    var b := End(tiles, a, h);
    if b in tiles && !hs[b].inUse then FreeEnd(tiles, hs, usage, b, h) else b
  }

  lemma {:induction false} FreeEndIs(tiles: Tiles, hs: Headers, usage: nat, a: nat, h: nat, e: nat)
    requires Tiling(tiles, usage, h) && a in tiles && HaveHeaders(tiles, hs)
    requires a < e && (e == usage || (e in tiles && hs[e].inUse))
    requires forall x :: x in tiles && a < x < e ==> !hs[x].inUse
    ensures FreeEnd(tiles, hs, usage, a, h) == e
    decreases usage - a
  {
    hide Tiling;
    var b := End(tiles, a, h);
    TileContinued(tiles, usage, h, a);
    TilesOrdered(tiles, usage, h, a, e);
    TileBounds(tiles, usage, h);
    PayloadsNotEmpty(tiles, usage, h);
    if b in tiles && !hs[b].inUse {
      FreeEndIs(tiles, hs, usage, b, h, e);
    }
  }

  lemma AllCoalesced(tiles': Tiles, hs': Headers, tiles: Tiles, hs: Headers, usage: nat, a: nat, h: nat)
    requires Tiling(tiles, usage, h) && Tiling(tiles', usage, h) && a in tiles'
    requires HaveHeaders(tiles, hs)
    requires Coalesced(tiles', hs', tiles, hs, a, h)
    requires var e := End(tiles', a, h); e == usage || (e in tiles' && e in hs' && hs'[e].inUse)
    ensures FreeEnd(tiles, hs, usage, a, h) == End(tiles', a, h)
  {
    hide Tiling;
    PayloadsNotEmpty(tiles', usage, h);
    FreeEndIs(tiles, hs, usage, a, h, End(tiles', a, h));
  }

  /** The chunks before an address. */
  ghost function TilesBelow(tiles: Tiles, limit: nat): set<nat> {
    set a | a in tiles && a < limit
  }

  lemma NoTilesBelow(tiles: Tiles)
    ensures TilesBelow(tiles, 0) == {}
  {
  }

  lemma CoalescedKeepsBelow(tiles': Tiles, hs': Headers, tiles: Tiles, hs: Headers, a: nat, h: nat)
    requires a in tiles' && Coalesced(tiles', hs', tiles, hs, a, h)
    ensures TilesBelow(tiles', a) == TilesBelow(tiles, a)
  {
  }

  lemma OneMoreTileBelow(tiles: Tiles, usage: nat, h: nat, a: nat)
    requires Tiling(tiles, usage, h) && a in tiles
    ensures |TilesBelow(tiles, End(tiles, a, h))| == |TilesBelow(tiles, a)| + 1
  {
    assert TilesBelow(tiles, End(tiles, a, h)) == TilesBelow(tiles, a) + {a};
  }

  lemma AllTilesBelow(tiles: Tiles, usage: nat, h: nat)
    requires Tiling(tiles, usage, h)
    ensures |TilesBelow(tiles, usage)| == |tiles|
  {
    hide Tiling;
    TileBounds(tiles, usage, h);
    assert TilesBelow(tiles, usage) == tiles.Keys;
  }

  lemma Distribute(h: nat, n: nat)
    ensures h * (n + 1) == h * n + h
  {
  }

  lemma MergedEnds(tiles: Tiles, usage: nat, h: nat, a: nat, x: nat)
    requires Tiling(tiles, usage, h)
    requires a in tiles && End(tiles, a, h) in tiles && x in Merged(tiles, a, h)
    ensures x in tiles && x != End(tiles, a, h)
    ensures End(Merged(tiles, a, h), x, h) == End(tiles, if x == a then End(tiles, a, h) else x, h)
    ensures x != a ==> End(tiles, x, h) != End(tiles, a, h)
  {
    hide Tiling, Merged;
    PayloadsNotEmpty(tiles, usage, h);
    if x < a {
      TilesOrdered(tiles, usage, h, x, a);
    } else if a < x {
      TilesOrdered(tiles, usage, h, a, x);
    }
  }

  lemma MergeKeepsTiling(tiles: Tiles, usage: nat, h: nat, a: nat)
    requires Tiling(tiles, usage, h)
    requires a in tiles && End(tiles, a, h) in tiles
    ensures Tiling(Merged(tiles, a, h), usage, h)
  {
    hide Tiling, Merged;
    var b := End(tiles, a, h);
    var t := Merged(tiles, a, h);
    FirstChunk(tiles, usage, h);
    PayloadsNotEmpty(tiles, usage, h);
    forall x | x in t
      ensures t[x] > 0 && End(t, x, h) <= usage && Continued(t, usage, h, x)
    {
      MergedEnds(tiles, usage, h, a, x);
      TileContinued(tiles, usage, h, if x == a then b else x);
    }
    forall x, y | x in t && y in t && x < y
      ensures End(t, x, h) <= y
    {
      MergedEnds(tiles, usage, h, a, x);
      MergedEnds(tiles, usage, h, a, y);
      MergedInOrder(tiles, usage, h, a, x, y);
    }
    TilingIs(t, usage, h);
  }

  lemma MergedInOrder(tiles: Tiles, usage: nat, h: nat, a: nat, x: nat, y: nat)
    requires Tiling(tiles, usage, h) && a in tiles && x in tiles && y in tiles && x < y
    requires End(tiles, a, h) in tiles && x != End(tiles, a, h) && y != End(tiles, a, h)
    ensures End(tiles, if x == a then End(tiles, a, h) else x, h) <= y
  {
    hide Tiling;
    TilesOrdered(tiles, usage, h, x, y);
    if x == a {
      TilesOrdered(tiles, usage, h, End(tiles, a, h), y);
    }
  }

  /** A chunk is cut in two, the first part keeping `offset` bytes of payload. */
  function Cut(tiles: Tiles, a: nat, offset: nat, h: nat): Tiles
    requires a in tiles && offset + h < tiles[a]
  {
    tiles[a := offset][a + h + offset := tiles[a] - h - offset]
  }

  lemma CutKeepsTiling(tiles: Tiles, usage: nat, h: nat, a: nat, offset: nat)
    requires Tiling(tiles, usage, h)
    requires a in tiles && 0 < offset && offset + h < tiles[a]
    ensures Tiling(Cut(tiles, a, offset, h), usage, h)
    ensures a + h + offset !in tiles
    ensures End(Cut(tiles, a, offset, h), a + h + offset, h) == End(tiles, a, h)
  {
    hide Tiling;
    var t := Cut(tiles, a, offset, h);
    FirstChunk(tiles, usage, h);
    PayloadsNotEmpty(tiles, usage, h);
    forall x | x in t
      ensures t[x] > 0 && End(t, x, h) <= usage && Continued(t, usage, h, x)
    {
      CutEnds(tiles, usage, h, a, offset, x);
      TileContinued(tiles, usage, h, if x == a + h + offset then a else x);
    }
    forall x, y | x in t && y in t && x < y
      ensures End(t, x, h) <= y
    {
      CutInOrder(tiles, usage, h, a, offset, x, y);
    }
    CutEnds(tiles, usage, h, a, offset, a + h + offset);
    TilingIs(t, usage, h);
  }

  lemma CutInOrder(tiles: Tiles, usage: nat, h: nat, a: nat, offset: nat, x: nat, y: nat)
    requires Tiling(tiles, usage, h)
    requires a in tiles && 0 < offset && offset + h < tiles[a]
    requires x in Cut(tiles, a, offset, h) && y in Cut(tiles, a, offset, h) && x < y
    ensures End(Cut(tiles, a, offset, h), x, h) <= y
  {
    hide Tiling;
    CutEnds(tiles, usage, h, a, offset, x);
    CutEnds(tiles, usage, h, a, offset, y);
    if x in tiles && y in tiles && x != a {
      TilesOrdered(tiles, usage, h, x, y);
    }
  }

  lemma CutEnds(tiles: Tiles, usage: nat, h: nat, a: nat, offset: nat, x: nat)
    requires Tiling(tiles, usage, h)
    requires a in tiles && 0 < offset && offset + h < tiles[a]
    requires x in Cut(tiles, a, offset, h)
    ensures var b, t := a + h + offset, Cut(tiles, a, offset, h);
      && b !in tiles
      && (x == a ==> End(t, x, h) == b)
      && (x == b ==> End(t, x, h) == End(tiles, a, h))
      && (x != a && x != b ==> End(t, x, h) == End(tiles, x, h))
      && (x < a ==> End(tiles, x, h) <= a)
      && (x > a && x != b ==> x >= End(tiles, a, h))
  {
    hide Tiling;
    TilesOrdered(tiles, usage, h, a, a + h + offset);
    TilesOrdered(tiles, usage, h, x, a);
    TilesOrdered(tiles, usage, h, a, x);
  }

  lemma TilesOrdered(tiles: Tiles, usage: nat, h: nat, x: nat, y: nat)
    requires Tiling(tiles, usage, h)
    ensures x in tiles && y in tiles && x < y ==> End(tiles, x, h) <= y
  {
  }

  lemma CutIsApart(tiles: Tiles, usage: nat, h: nat, a: nat, offset: nat)
    requires Tiling(tiles, usage, h)
    requires a in tiles && offset + h < tiles[a]
    ensures forall k :: k in tiles ==> Apart(k, a + h + offset, h)
  {
    assert forall k :: k in tiles && k < a ==> End(tiles, k, h) <= a;
    assert forall k :: k in tiles && a < k ==> End(tiles, a, h) <= k;
  }

  /** The last chunk is given back to the unused end of the arena. */
  lemma DropKeepsTiling(tiles: Tiles, usage: nat, h: nat, a: nat)
    requires Tiling(tiles, usage, h) && a in tiles && End(tiles, a, h) == usage
    ensures Tiling(tiles - {a}, a, h)
  {
    hide Tiling;
    var t := tiles - {a};
    FirstChunk(tiles, usage, h);
    PayloadsNotEmpty(tiles, usage, h);
    forall x | x in t
      ensures End(t, x, h) == End(tiles, x, h) <= a && Continued(t, a, h, x)
    {
      BeforeLast(tiles, usage, h, a, x);
    }
    forall x, y | x in t && y in t && x < y
      ensures End(t, x, h) <= y
    {
      TilesOrdered(tiles, usage, h, x, y);
    }
    TilingIs(t, a, h);
  }

  /** A new chunk is laid out at the end. */
  lemma AppendKeepsTiling(tiles: Tiles, usage: nat, h: nat, size: nat)
    requires Tiling(tiles, usage, h) && size > 0
    ensures Tiling(tiles[usage := size], usage + h + size, h)
    ensures usage !in tiles
  {
    hide Tiling, Continued;
    var t := tiles[usage := size];
    FirstChunk(tiles, usage, h);
    PayloadsNotEmpty(tiles, usage, h);
    forall x | x in t
      ensures t[x] > 0 && End(t, x, h) <= usage + h + size && Continued(t, usage + h + size, h, x)
    {
      AppendedContinued(tiles, usage, h, size, x);
    }
    forall x, y | x in t && y in t && x < y
      ensures End(t, x, h) <= y
    {
      AppendedInOrder(tiles, usage, h, x, y);
    }
    TilingIs(t, usage + h + size, h);
  }

  lemma AppendedContinued(tiles: Tiles, usage: nat, h: nat, size: nat, x: nat)
    requires Tiling(tiles, usage, h) && size > 0 && x in tiles[usage := size]
    ensures var t := tiles[usage := size];
            t[x] > 0 && End(t, x, h) <= usage + h + size && Continued(t, usage + h + size, h, x)
  {
    hide Tiling;
    if x != usage {
      PayloadsNotEmpty(tiles, usage, h);
      TileContinued(tiles, usage, h, x);
    }
  }

  lemma AppendedInOrder(tiles: Tiles, usage: nat, h: nat, x: nat, y: nat)
    requires Tiling(tiles, usage, h) && (x in tiles || x == usage) && (y in tiles || y == usage) && x < y
    ensures x in tiles && End(tiles, x, h) <= y
  {
    hide Tiling;
    PayloadsNotEmpty(tiles, usage, h);
    if y != usage {
      TilesOrdered(tiles, usage, h, x, y);
    } else {
      TileContinued(tiles, usage, h, x);
    }
  }

  /** The last chunk grows into the unused end of the arena. */
  lemma GrowKeepsTiling(tiles: Tiles, usage: nat, h: nat, a: nat, size: nat)
    requires Tiling(tiles, usage, h) && a in tiles && End(tiles, a, h) == usage
    requires size >= tiles[a]
    ensures Tiling(tiles[a := size], a + h + size, h)
  {
    hide Tiling;
    var t := tiles[a := size];
    FirstChunk(tiles, usage, h);
    PayloadsNotEmpty(tiles, usage, h);
    forall x | x in t
      ensures t[x] > 0 && End(t, x, h) <= a + h + size && Continued(t, a + h + size, h, x)
    {
      if x != a {
        BeforeLast(tiles, usage, h, a, x);
      }
    }
    forall x, y | x in t && y in t && x < y
      ensures End(t, x, h) <= y
    {
      TilesOrdered(tiles, usage, h, x, y);
      if x == a {
        BeforeLast(tiles, usage, h, a, y);
      }
    }
    TilingIs(t, a + h + size, h);
  }

  lemma BeforeLast(tiles: Tiles, usage: nat, h: nat, a: nat, x: nat)
    requires Tiling(tiles, usage, h) && a in tiles && x in tiles && x != a && End(tiles, a, h) == usage
    ensures x < a && End(tiles, x, h) <= a && End(tiles, x, h) in tiles
  {
    hide Tiling;
    PayloadsNotEmpty(tiles, usage, h);
    TileBounds(tiles, usage, h);
    TilesOrdered(tiles, usage, h, x, a);
    TilesOrdered(tiles, usage, h, a, x);
    TileContinued(tiles, usage, h, x);
  }

  /** Every chunk starts on a multiple of the alignment and holds a multiple of it. */
  ghost predicate AlignedTiles(tiles: Tiles, alignment: nat)
    requires alignment > 0
  {
    forall a :: a in tiles ==> Multiple(a, alignment) && Multiple(tiles[a], alignment)
  }

  lemma MergeKeepsAligned(tiles: Tiles, h: nat, a: nat, alignment: nat)
    requires alignment > 0 && AlignedTiles(tiles, alignment) && Multiple(h, alignment)
    requires a in tiles && End(tiles, a, h) in tiles
    ensures AlignedTiles(Merged(tiles, a, h), alignment)
  {
    hide Multiple;
    MultiplesAdd(tiles[a], h, alignment);
    MultiplesAdd(tiles[a] + h, tiles[End(tiles, a, h)], alignment);
  }

  lemma CutKeepsAligned(tiles: Tiles, h: nat, a: nat, offset: nat, alignment: nat)
    requires alignment > 0 && AlignedTiles(tiles, alignment) && Multiple(h, alignment) && Multiple(offset, alignment)
    requires a in tiles && offset + h < tiles[a]
    ensures AlignedTiles(Cut(tiles, a, offset, h), alignment)
  {
    hide Multiple;
    MultiplesAdd(a, h, alignment);
    MultiplesAdd(a + h, offset, alignment);
    MultiplesAdd(tiles[a], h, alignment);
    MultiplesAdd(tiles[a] - h, offset, alignment);
  }

  lemma DropKeepsAligned(tiles: Tiles, a: nat, alignment: nat)
    requires alignment > 0 && AlignedTiles(tiles, alignment)
    ensures AlignedTiles(tiles - {a}, alignment)
  {
    hide Multiple;
  }

  lemma AppendKeepsAligned(tiles: Tiles, usage: nat, h: nat, size: nat, alignment: nat)
    requires alignment > 0 && Tiling(tiles, usage, h) && AlignedTiles(tiles, alignment) && Multiple(h, alignment)
    requires Multiple(size, alignment)
    ensures AlignedTiles(tiles[usage := size], alignment)
  {
    hide Multiple, Tiling;
    UsageIsAligned(tiles, usage, h, alignment);
  }

  /** So the used part of the arena ends on a multiple of the alignment too. */
  lemma UsageIsAligned(tiles: Tiles, usage: nat, h: nat, alignment: nat)
    requires alignment > 0 && Tiling(tiles, usage, h) && AlignedTiles(tiles, alignment) && Multiple(h, alignment)
    ensures Multiple(usage, alignment)
  {
    if usage > 0 {
      var a := CoveringTile(tiles, usage, h, usage - 1);
      assert Continued(tiles, usage, h, a);
      assert End(tiles, a, h) == usage;
      hide Multiple;
      MultiplesAdd(a, h, alignment);
      MultiplesAdd(a + h, tiles[a], alignment);
    } else {
      ModIsUnique(0, alignment, 0, 0);
    }
  }

  // ---------------------------------------------------------------------------------------------
  // Stores to headers

  /** `i` lies in no header. */
  ghost predicate OutsideHeaders(tiles: Tiles, h: nat, i: int) {
    forall a :: a in tiles ==> i < a || a + h <= i
  }

  /** No byte outside the headers has changed. */
  ghost predicate OnlyHeaders(bytes': seq<byte>, bytes: seq<byte>, tiles: Tiles, h: nat) {
    |bytes'| == |bytes| && forall i :: 0 <= i < |bytes| && OutsideHeaders(tiles, h, i) ==> bytes'[i] == bytes[i]
  }

  /** No byte outside [lo, hi) has changed. */
  ghost predicate SameExcept(bytes': seq<byte>, bytes: seq<byte>, lo: nat, hi: nat) {
    |bytes'| == |bytes| && forall i :: 0 <= i < |bytes| && (i < lo || hi <= i) ==> bytes'[i] == bytes[i]
  }

  lemma OneHeaderOnly(bytes': seq<byte>, bytes: seq<byte>, tiles: Tiles, h: nat, a: nat)
    requires a in tiles && SameExcept(bytes', bytes, a, a + h)
    ensures OnlyHeaders(bytes', bytes, tiles, h)
  {
  }

  lemma NoStore(bytes: seq<byte>, tiles: Tiles, h: nat)
    ensures OnlyHeaders(bytes, bytes, tiles, h)
  {
  }

  lemma OnlyHeadersTwice(bytes2: seq<byte>, bytes1: seq<byte>, bytes: seq<byte>, tiles: Tiles, h: nat)
    requires OnlyHeaders(bytes2, bytes1, tiles, h) && OnlyHeaders(bytes1, bytes, tiles, h)
    ensures OnlyHeaders(bytes2, bytes, tiles, h)
  {
    hide OutsideHeaders;
  }

  lemma FewerHeaders(bytes': seq<byte>, bytes: seq<byte>, fewer: Tiles, tiles: Tiles, h: nat)
    requires OnlyHeaders(bytes', bytes, fewer, h) && fewer.Keys <= tiles.Keys
    ensures OnlyHeaders(bytes', bytes, tiles, h)
  {
  }

  /** One header is assigned. */
  ghost predicate HeaderSet(hs': Headers, hs: Headers, tiles: Tiles, a: nat, hd: Header) {
    forall k :: k in tiles ==> k in hs && k in hs' && hs'[k] == if k == a then hd else hs[k]
  }

  /** `chunk->prev = prev`, unless `chunk` is NULL. */
  ghost predicate PrevSet(hs': Headers, hs: Headers, tiles: Tiles, chunk: Link, prev: Link) {
    forall k :: k in tiles ==>
      k in hs && k in hs' && hs'[k] == if chunk == At(k) then hs[k].(prev := prev) else hs[k]
  }

  ghost predicate HeadersStay(hs': Headers, hs: Headers, tiles: Tiles) {
    forall k :: k in tiles ==> k in hs && k in hs' && hs'[k] == hs[k]
  }

  ghost predicate FlagsStay(hs': Headers, hs: Headers, tiles: Tiles) {
    forall k :: k in tiles ==> k in hs && k in hs' && hs'[k].inUse == hs[k].inUse
  }

  ghost predicate TagsStay(hs': Headers, hs: Headers, tiles: Tiles) {
    forall k :: k in tiles ==> k in hs && k in hs' && hs'[k].size == hs[k].size && hs'[k].inUse == hs[k].inUse
  }

  /** A store over the header of a chunk destroys no other. */
  lemma HeaderStored(tiles: Tiles, usage: nat, h: nat, hs: Headers, a: nat, hd: Header)
    requires Tiling(tiles, usage, h) && HaveHeaders(tiles, hs) && a in tiles
    ensures HaveHeaders(tiles, Stored(hs, a, hd, h)) && HeaderSet(Stored(hs, a, hd, h), hs, tiles, a, hd)
  {
    hide Tiling, Stored, Apart;
    forall k | k in tiles && k != a
      ensures Apart(k, a, h)
    {
      TilesApart(tiles, usage, h, k, a);
    }
  }

  lemma SetHeader(hs': Headers, hs: Headers, tiles: Tiles, a: nat, hd: Header)
    requires HeaderSet(hs', hs, tiles, a, hd) && a in tiles
    ensures a in hs' && hs'[a] == hd && HaveHeaders(tiles, hs')
  {
  }

  lemma PrevIsSet(hs': Headers, hs: Headers, tiles: Tiles, a: nat, prev: Link)
    requires a in hs && HeaderSet(hs', hs, tiles, a, hs[a].(prev := prev))
    ensures PrevSet(hs', hs, tiles, At(a), prev)
  {
  }

  lemma NoPrevSet(hs: Headers, tiles: Tiles, prev: Link)
    requires HaveHeaders(tiles, hs)
    ensures PrevSet(hs, hs, tiles, Null, prev)
  {
  }

  // ---------------------------------------------------------------------------------------------
  // The free list

  function LinkAt(free: seq<nat>, i: int): Link {
    if 0 <= i < |free| then At(free[i]) else Null
  }

  /** The `i`-th free chunk points at its neighbours on the list. */
  predicate LinkedAt(free: seq<nat>, hs: Headers, i: nat)
    requires i < |free|
  {
    && free[i] in hs
    && hs[free[i]].prev == LinkAt(free, i - 1)
    && hs[free[i]].next == LinkAt(free, i + 1)
  }

  /** Following `next` from `head` visits exactly `free`, no chunk twice, and `prev` leads back. */
  ghost predicate FreeList(free: seq<nat>, hs: Headers, head: Link) {
    && head == LinkAt(free, 0)
    && (forall i {:trigger LinkedAt(free, hs, i)} :: 0 <= i < |free| ==> LinkedAt(free, hs, i))
    && (forall i, j :: 0 <= i < j < |free| ==> free[i] != free[j])
  }

  /** The chunk that `n` steps along `next` lead to. */
  function Follow(hs: Headers, head: Link, n: nat): Link {
    if n == 0 then head
    else
      var before := Follow(hs, head, n - 1);
      if before.At? && before.addr in hs then hs[before.addr].next else Null
  }

  /** The walk visits the chunks of `free` one after the other and then ends. */
  lemma {:induction false} FollowVisitsAll(free: seq<nat>, hs: Headers, head: Link, n: nat)
    requires FreeList(free, hs, head)
    ensures Follow(hs, head, n) == LinkAt(free, n)
  {
    if n > 0 {
      FollowVisitsAll(free, hs, head, n - 1);
      if n <= |free| {
        assert LinkedAt(free, hs, n - 1);
      }
    }
  }

  /** The same links at the given addresses. */
  ghost predicate SameLinks(free: seq<nat>, hs: Headers, hs': Headers) {
    forall a :: a in free && a in hs ==> a in hs' && hs'[a].prev == hs[a].prev && hs'[a].next == hs[a].next
  }

  lemma FreeListOfLinks(free: seq<nat>, hs: Headers, hs': Headers, head: Link)
    requires FreeList(free, hs, head) && SameLinks(free, hs, hs')
    ensures FreeList(free, hs', head)
  {
    forall i | 0 <= i < |free|
      ensures LinkedAt(free, hs', i)
    {
      assert LinkedAt(free, hs, i) && free[i] in free;
    }
  }

  /** Assigning a header keeps the links if the chunk is not on the list, or if its links are kept. */
  lemma LinksOfSet(free: seq<nat>, hs: Headers, hs': Headers, tiles: Tiles, a: nat, hd: Header)
    requires ListOfTiles(free, tiles) && HeaderSet(hs', hs, tiles, a, hd)
    requires a !in free || (a in hs && hd.prev == hs[a].prev && hd.next == hs[a].next)
    ensures SameLinks(free, hs, hs')
  {
  }

  /** The list consists of chunks. */
  ghost predicate ListOfTiles(free: seq<nat>, tiles: Tiles) {
    forall a :: a in free ==> a in tiles
  }

  lemma NotOnList(free: seq<nat>, tiles: Tiles, a: nat)
    requires ListOfTiles(free, tiles) && a !in tiles
    ensures a !in free
  {
  }

  lemma HeadIsChunk(free: seq<nat>, hs: Headers, head: Link, tiles: Tiles)
    requires FreeList(free, hs, head) && ListOfTiles(free, tiles)
    ensures head.At? ==> head.addr in tiles
  {
    if |free| > 0 {
      assert free[0] in free;
    }
  }

  lemma OnePlace(free: seq<nat>, hs: Headers, head: Link, m: nat, n: nat)
    requires FreeList(free, hs, head) && m < |free| && n < |free| && free[m] == free[n]
    ensures m == n
  {
  }

  /** The chunks on the list are the unused ones, but for those that are about to be handed out. */
  ghost predicate FreeMatches(free: seq<nat>, tiles: Tiles, hs: Headers, pending: set<nat>) {
    forall a :: a in free <==> a in tiles && a in hs && !hs[a].inUse && a !in pending
  }

  lemma IsFree(free: seq<nat>, tiles: Tiles, hs: Headers, pending: set<nat>, a: nat)
    requires FreeMatches(free, tiles, hs, pending)
    ensures a in free <==> a in tiles && a in hs && !hs[a].inUse && a !in pending
  {
  }

  /** The place of a chunk on the list, and its neighbours. */
  lemma PlaceOf(free: seq<nat>, hs: Headers, head: Link, tiles: Tiles, a: nat) returns (n: nat)
    requires FreeList(free, hs, head) && ListOfTiles(free, tiles) && a in free
    ensures n < |free| && free[n] == a && a in tiles && a in hs && (head == At(a) <==> n == 0)
    ensures hs[a].prev == LinkAt(free, n - 1) && hs[a].next == LinkAt(free, n + 1)
    ensures hs[a].prev.At? <==> n > 0
    ensures hs[a].prev.At? ==> hs[a].prev.addr in tiles && hs[a].prev.addr != a
    ensures hs[a].next.At? ==> hs[a].next.addr in tiles && hs[a].next.addr != a
  {
    n :| 0 <= n < |free| && free[n] == a;
    assert LinkedAt(free, hs, n);
  }

  function RemoveAt(s: seq<nat>, i: nat): (r: seq<nat>)
    requires i < |s|
    ensures |r| == |s| - 1
    ensures forall k :: 0 <= k < i ==> r[k] == s[k]
    ensures forall k :: i <= k < |r| ==> r[k] == s[k + 1]
  {
    s[..i] + s[i + 1..]
  }

  /** The elements of a list that are in a set, in order. */
  function Among(s: seq<nat>, keep: set<nat>): (r: seq<nat>)
    ensures |r| <= |s|
    ensures forall x :: x in r <==> x in s && x in keep
  {
    if s == [] then [] else (if s[0] in keep then [s[0]] else []) + Among(s[1..], keep)
  }

  lemma {:induction false} AmongBoth(a: seq<nat>, b: seq<nat>, keep: set<nat>)
    ensures Among(a + b, keep) == Among(a, keep) + Among(b, keep)
  {
    if a == [] {
      assert a + b == b;
    } else {
      assert (a + b)[0] == a[0] && (a + b)[1..] == a[1..] + b;
      AmongBoth(a[1..], b, keep);
    }
  }

  lemma {:induction false} AllAmong(s: seq<nat>, keep: set<nat>)
    requires forall x :: x in s ==> x in keep
    ensures Among(s, keep) == s
  {
    if s != [] {
      AllAmong(s[1..], keep);
    }
  }

  lemma {:induction false} AmongTwice(s: seq<nat>, keep: set<nat>, fewer: set<nat>)
    requires fewer <= keep
    ensures Among(Among(s, keep), fewer) == Among(s, fewer)
  {
    if s != [] {
      AmongTwice(s[1..], keep, fewer);
      AmongBoth(Among([s[0]], keep), Among(s[1..], keep), fewer);
      OneAmong(s[0], keep);
      OneAmong(s[0], fewer);
    }
  }

  lemma OneAmong(x: nat, keep: set<nat>)
    ensures Among([x], keep) == if x in keep then [x] else []
    ensures Among([], keep) == []
  {
  }

  lemma RemoveIsAmong(s: seq<nat>, i: nat, keep: set<nat>)
    requires i < |s| && s[i] !in keep
    requires forall j :: 0 <= j < |s| && j != i ==> s[j] in keep
    ensures RemoveAt(s, i) == Among(s, keep)
  {
    hide Among;
    AmongWithout(s, i, keep);
    AmongFront(s, i, keep);
    AmongBack(s, i + 1, keep);
  }

  lemma AmongWithout(s: seq<nat>, i: nat, keep: set<nat>)
    requires i < |s| && s[i] !in keep
    ensures Among(s, keep) == Among(s[..i], keep) + Among(s[i + 1..], keep)
  {
    hide Among;
    AmongAround(s, i, keep);
  }

  lemma AmongAround(s: seq<nat>, i: nat, keep: set<nat>)
    requires i < |s|
    ensures Among(s, keep) ==
            Among(s[..i], keep) + ((if s[i] in keep then [s[i]] else []) + Among(s[i + 1..], keep))
  {
    hide Among;
    assert s == s[..i] + ([s[i]] + s[i + 1..]);
    AmongBoth(s[..i], [s[i]] + s[i + 1..], keep);
    AmongBoth([s[i]], s[i + 1..], keep);
    OneAmong(s[i], keep);
  }

  lemma AmongFront(s: seq<nat>, n: nat, keep: set<nat>)
    requires n <= |s| && forall j :: 0 <= j < n ==> s[j] in keep
    ensures Among(s[..n], keep) == s[..n]
  {
    hide Among;
    AllAmong(s[..n], keep);
  }

  lemma AmongBack(s: seq<nat>, n: nat, keep: set<nat>)
    requires n <= |s| && forall j :: n <= j < |s| ==> s[j] in keep
    ensures Among(s[n..], keep) == s[n..]
  {
    hide Among;
    AllAmong(s[n..], keep);
  }

  /** The place of a chunk on a list that loses some others. */
  lemma PlaceAmong(s: seq<nat>, n: nat, keep: set<nat>)
    requires n < |s| && s[n] in keep
    ensures var r, k := Among(s, keep), |Among(s[..n], keep)|;
            && k < |r| && r[k] == s[n] && r[..k] == Among(s[..n], keep)
            && |r| - k <= |s| - n
  {
    hide Among;
    AmongAround(s, n, keep);
  }

  /** Behind the chunk there is none that is unused. */
  ghost predicate Settled(tiles: Tiles, hs: Headers, usage: nat, h: nat, a: nat) {
    a in tiles && var e := End(tiles, a, h); e == usage || (e in tiles && e in hs && hs[e].inUse)
  }

  /** Absorbing chunks behind one chunk does not unsettle any other. */
  lemma CoalescedStaySettled(tiles': Tiles, hs': Headers, tiles: Tiles, hs: Headers, usage: nat, h: nat, a: nat, x: nat)
    requires a in tiles' && Coalesced(tiles', hs', tiles, hs, a, h)
    requires Settled(tiles, hs, usage, h, x) && x in tiles' && x != a
    ensures Settled(tiles', hs', usage, h, x)
  {
  }

  /** The list without its `n`-th chunk: its neighbours now point at each other. */
  lemma UnlinkKeepsList(free: seq<nat>, hs: Headers, hs': Headers, head: Link, n: nat)
    requires FreeList(free, hs, head) && n < |free| && LinkedAt(free, hs, n)
    requires forall i :: 0 <= i < |free| && i != n && free[i] in hs ==>
      && free[i] in hs'
      && hs'[free[i]].prev == (if At(free[i]) == hs[free[n]].next then hs[free[n]].prev else hs[free[i]].prev)
      && hs'[free[i]].next == (if At(free[i]) == hs[free[n]].prev then hs[free[n]].next else hs[free[i]].next)
    ensures FreeList(RemoveAt(free, n), hs', if n == 0 then LinkAt(free, 1) else head)
  {
    var r := RemoveAt(free, n);
    forall i | 0 <= i < |r|
      ensures LinkedAt(r, hs', i)
    {
      var k := if i < n then i else i + 1;
      assert r[i] == free[k];
      assert LinkedAt(free, hs, k);
    }
  }

  /** The neighbours of the chunk at `a` point at each other. */
  ghost predicate Unlinked(hs': Headers, hs: Headers, tiles: Tiles, a: nat)
    requires a in hs
  {
    forall k :: k in tiles ==>
      && k in hs && k in hs' && hs'[k].size == hs[k].size && hs'[k].inUse == hs[k].inUse
      && hs'[k].prev == (if At(k) == hs[a].next then hs[a].prev else hs[k].prev)
      && hs'[k].next == (if At(k) == hs[a].prev then hs[a].next else hs[k].next)
  }

  lemma FirstUnlinked(hs2: Headers, hs1: Headers, hs: Headers, tiles: Tiles, a: nat)
    requires a in hs && hs[a].prev == Null
    requires PrevSet(hs1, hs, tiles, hs[a].next, Null) && PrevSet(hs2, hs1, tiles, hs[a].next, hs[a].prev)
    ensures Unlinked(hs2, hs, tiles, a)
  {
  }

  lemma InnerUnlinked(hs2: Headers, hs1: Headers, hs: Headers, tiles: Tiles, a: nat, p: nat)
    requires a in hs && p in hs && hs[a].prev == At(p)
    requires HeaderSet(hs1, hs, tiles, p, hs[p].(next := hs[a].next))
    requires PrevSet(hs2, hs1, tiles, hs[a].next, hs[a].prev)
    ensures Unlinked(hs2, hs, tiles, a)
  {
  }

  lemma ListWithout(free: seq<nat>, hs: Headers, hs': Headers, head: Link, tiles: Tiles, n: nat)
    requires FreeList(free, hs, head) && ListOfTiles(free, tiles) && n < |free| && free[n] in hs
    requires Unlinked(hs', hs, tiles, free[n])
    ensures FreeList(RemoveAt(free, n), hs', if n == 0 then LinkAt(free, 1) else head)
    ensures RemoveAt(free, n) == Among(free, tiles.Keys - {free[n]}) && TagsStay(hs', hs, tiles)
    ensures ListOfTiles(RemoveAt(free, n), tiles)
  {
    hide Among, RemoveAt;
    assert LinkedAt(free, hs, n);
    forall i | 0 <= i < |free|
      ensures free[i] in tiles
    {
      assert free[i] in free;
    }
    UnlinkKeepsList(free, hs, hs', head, n);
    RemoveIsAmong(free, n, tiles.Keys - {free[n]});
  }

  /** The list with a new first chunk. */
  lemma PushKeepsList(free: seq<nat>, hs: Headers, hs': Headers, head: Link, a: nat)
    requires FreeList(free, hs, head) && a !in free
    requires a in hs' && hs'[a].prev == Null && hs'[a].next == head
    requires forall i :: 0 <= i < |free| && free[i] in hs ==>
      && free[i] in hs'
      && hs'[free[i]].prev == (if At(free[i]) == head then At(a) else hs[free[i]].prev)
      && hs'[free[i]].next == hs[free[i]].next
    ensures FreeList([a] + free, hs', At(a))
  {
    var r := [a] + free;
    forall i | 0 <= i < |r|
      ensures LinkedAt(r, hs', i)
    {
      if i > 0 {
        assert r[i] == free[i - 1];
        assert LinkedAt(free, hs, i - 1);
      }
    }
  }

  /** The chunk at `a` is no longer in use. */
  ghost predicate Freed(hs': Headers, hs: Headers, tiles: Tiles, a: nat) {
    forall k :: k in tiles ==>
      k in hs && k in hs' && hs'[k].size == hs[k].size && hs'[k].inUse == (k != a && hs[k].inUse)
  }

  lemma DroppedIsFreed(free: seq<nat>, hs: Headers, hs': Headers, head: Link, tiles: Tiles, a: nat)
    requires a in hs && a !in free && HeaderSet(hs', hs, tiles, a, hs[a].(inUse := false))
    requires FreeList(free, hs, head) && ListOfTiles(free, tiles)
    ensures FreeList(free, hs', head) && ListOfTiles(free, tiles - {a})
    ensures Freed(hs', hs, tiles, a) && HaveHeaders(tiles - {a}, hs')
  {
    hide FreeList;
    LinksOfSet(free, hs, hs', tiles, a, hs[a].(inUse := false));
    FreeListOfLinks(free, hs, hs', head);
  }

  lemma PushedIsFreed(free: seq<nat>, hs: Headers, hs1: Headers, hs2: Headers, hs3: Headers, head: Link, tiles: Tiles,
                      a: nat)
    requires a in hs && a in tiles && a !in free && HeaderSet(hs1, hs, tiles, a, hs[a].(inUse := false))
    requires a in hs1 && HeaderSet(hs2, hs1, tiles, a, hs1[a].(prev := Null, next := head))
    requires PrevSet(hs3, hs2, tiles, head, At(a))
    requires FreeList(free, hs, head) && ListOfTiles(free, tiles)
    ensures FreeList([a] + free, hs3, At(a)) && ListOfTiles([a] + free, tiles) && Freed(hs3, hs, tiles, a)
  {
    FreeListHead(free, hs, head);
    assert head != At(a);
    forall i | 0 <= i < |free|
      ensures free[i] in tiles
    {
      assert free[i] in free;
    }
    PushKeepsList(free, hs, hs3, head, a);
  }

  // ---------------------------------------------------------------------------------------------
  // The objects

  /** The chunks handed out and not yet taken back. */
  predicate Live(tiles: Tiles, hs: Headers, a: nat) {
    a in tiles && a in hs && hs[a].inUse
  }

  /** The same chunks are handed out. */
  ghost predicate SameLive(tiles': Tiles, hs': Headers, tiles: Tiles, hs: Headers) {
    forall a: nat :: Live(tiles, hs, a) <==> Live(tiles', hs', a)
  }

  function Payload(bytes: seq<byte>, tiles: Tiles, a: nat, h: nat): seq<byte>
    requires a in tiles && End(tiles, a, h) <= |bytes|
  {
    bytes[a + h .. End(tiles, a, h)]
  }

  ghost predicate Fits(bytes: seq<byte>, tiles: Tiles, h: nat) {
    forall a :: a in tiles ==> End(tiles, a, h) <= |bytes|
  }

  lemma TilesFit(bytes: seq<byte>, tiles: Tiles, usage: nat, h: nat)
    requires Tiling(tiles, usage, h) && usage <= |bytes|
    ensures Fits(bytes, tiles, h)
  {
  }

  /** What the heap's users see: the pointers they hold, and the bytes each gives access to. */
  ghost function ObjectsOf(bytes: seq<byte>, tiles: Tiles, hs: Headers, h: nat): (objects: map<nat, seq<byte>>)
    requires Fits(bytes, tiles, h)
    ensures forall p :: p in objects <==> h <= p && Live(tiles, hs, p - h)
    ensures forall p :: p in objects ==> h <= p && p - h in tiles && objects[p] == Payload(bytes, tiles, p - h, h)
  {
    var pointers := set a | a in tiles && Live(tiles, hs, a) :: a + h;
    assert forall a: nat :: Live(tiles, hs, a) ==> a + h in pointers;
    map p | p in pointers :: Payload(bytes, tiles, p - h, h)
  }

  lemma SizeOfObject(bytes: seq<byte>, tiles: Tiles, hs: Headers, h: nat, c: nat)
    requires Fits(bytes, tiles, h)
    ensures c + h in ObjectsOf(bytes, tiles, hs, h) <==> Live(tiles, hs, c)
    ensures c + h in ObjectsOf(bytes, tiles, hs, h) ==> |ObjectsOf(bytes, tiles, hs, h)[c + h]| == tiles[c]
  {
    assert c + h - h == c;
  }

  lemma PayloadOutsideHeaders(tiles: Tiles, usage: nat, h: nat, a: nat, i: nat)
    requires Tiling(tiles, usage, h) && a in tiles && a + h <= i < End(tiles, a, h)
    ensures OutsideHeaders(tiles, h, i)
  {
    assert forall b :: b in tiles && b < a ==> End(tiles, b, h) <= a;
  }

  /** Two contents agree as far as they both reach. */
  predicate Agree(s: seq<byte>, t: seq<byte>) {
    s <= t || t <= s
  }

  /** Stores that stay inside headers leave the bytes of every object alone. */
  lemma HeaderStoresKeepPayload(bytes: seq<byte>, bytes': seq<byte>, tiles: Tiles, tiles': Tiles, usage: nat, h: nat,
                                a: nat)
    requires |bytes| == |bytes'| && usage <= |bytes|
    requires Tiling(tiles, usage, h)
    requires OnlyHeaders(bytes', bytes, tiles, h)
    requires a in tiles && a in tiles' && End(tiles', a, h) <= |bytes|
    ensures End(tiles, a, h) <= |bytes|
    ensures Agree(Payload(bytes', tiles', a, h), Payload(bytes, tiles, a, h))
  {
    var s, t := Payload(bytes', tiles', a, h), Payload(bytes, tiles, a, h);
    var n := if |s| < |t| then |s| else |t|;
    forall k | 0 <= k < n
      ensures s[k] == t[k]
    {
      PayloadOutsideHeaders(tiles, usage, h, a, a + h + k);
    }
    assert s[..n] == t[..n];
  }

  /** The same objects with the same contents, but for the extent of the one at `p`. */
  ghost predicate SameBut(objects': map<nat, seq<byte>>, objects: map<nat, seq<byte>>, p: nat) {
    && objects'.Keys == objects.Keys
    && forall q :: q in objects ==> Agree(objects'[q], objects[q]) && (q != p ==> objects'[q] == objects[q])
  }

  /** An object whose chunk stays in use keeps its bytes, as far as both extents reach. */
  lemma ObjectStays(bytes: seq<byte>, bytes': seq<byte>, tiles: Tiles, tiles': Tiles, hs: Headers, hs': Headers,
                    usage: nat, h: nat, p: nat)
    requires usage <= |bytes| && Tiling(tiles, usage, h) && Fits(bytes, tiles, h) && Fits(bytes', tiles', h)
    requires OnlyHeaders(bytes', bytes, tiles, h)
    requires p in ObjectsOf(bytes, tiles, hs, h) && Live(tiles', hs', p - h)
    ensures p in ObjectsOf(bytes', tiles', hs', h) && p - h in tiles && p - h in tiles'
    ensures var o', o := ObjectsOf(bytes', tiles', hs', h)[p], ObjectsOf(bytes, tiles, hs, h)[p];
            Agree(o', o) && (tiles'[p - h] == tiles[p - h] ==> o' == o)
  {
    hide Tiling, ObjectsOf, Agree, Live, OnlyHeaders;
    LiveChunk(tiles', hs', p - h);
    LengthStays(bytes', bytes, tiles, h);
    ChunkFits(bytes, tiles, h, p - h);
    ChunkFits(bytes', tiles', h, p - h);
    HeaderStoresKeepPayload(bytes, bytes', tiles, tiles', usage, h, p - h);
    AgreeOfSameLength(Payload(bytes', tiles', p - h, h), Payload(bytes, tiles, p - h, h));
  }

  lemma LiveChunk(tiles: Tiles, hs: Headers, a: nat)
    requires Live(tiles, hs, a)
    ensures a in tiles && a in hs && hs[a].inUse
  {
  }

  lemma LengthStays(bytes': seq<byte>, bytes: seq<byte>, tiles: Tiles, h: nat)
    requires OnlyHeaders(bytes', bytes, tiles, h)
    ensures |bytes'| == |bytes|
  {
  }

  lemma ChunkFits(bytes: seq<byte>, tiles: Tiles, h: nat, a: nat)
    requires Fits(bytes, tiles, h) && a in tiles
    ensures End(tiles, a, h) <= |bytes| && |Payload(bytes, tiles, a, h)| == tiles[a]
  {
  }

  lemma AgreeOfSameLength(s: seq<byte>, t: seq<byte>)
    ensures Agree(s, t) && |s| == |t| ==> s == t
  {
  }

  lemma HeaderStoresKeepObjects(bytes: seq<byte>, bytes': seq<byte>, tiles: Tiles, tiles': Tiles,
                                hs: Headers, hs': Headers, usage: nat, h: nat, c: nat)
    requires usage <= |bytes|
    requires Tiling(tiles, usage, h) && Fits(bytes, tiles, h) && Fits(bytes', tiles', h)
    requires OnlyHeaders(bytes', bytes, tiles, h)
    requires SameLive(tiles', hs', tiles, hs)
    requires forall a :: a in tiles && a in tiles' && a != c && Live(tiles, hs, a) ==> tiles'[a] == tiles[a]
    ensures SameBut(ObjectsOf(bytes', tiles', hs', h), ObjectsOf(bytes, tiles, hs, h), c + h)
  {
    hide Tiling, OnlyHeaders, ObjectsOf, Live, SameLive, Agree, Fits, SameBut;
    var objects, objects' := ObjectsOf(bytes, tiles, hs, h), ObjectsOf(bytes', tiles', hs', h);
    forall p | p in objects
      ensures p in objects' && Agree(objects'[p], objects[p]) && (p != c + h ==> objects'[p] == objects[p])
    {
      SameLiveAt(tiles', hs', tiles, hs, p - h);
      ObjectStays(bytes, bytes', tiles, tiles', hs, hs', usage, h, p);
    }
    forall p | p in objects'
      ensures p in objects
    {
      SameLiveAt(tiles', hs', tiles, hs, p - h);
    }
    SameButIs(objects', objects, c + h);
  }

  lemma SameLiveAt(tiles': Tiles, hs': Headers, tiles: Tiles, hs: Headers, a: nat)
    requires SameLive(tiles', hs', tiles, hs)
    ensures Live(tiles, hs, a) <==> Live(tiles', hs', a)
  {
  }

  lemma SameButIs(objects': map<nat, seq<byte>>, objects: map<nat, seq<byte>>, p: nat)
    requires forall q :: q in objects ==>
      q in objects' && Agree(objects'[q], objects[q]) && (q != p ==> objects'[q] == objects[q])
    requires forall q :: q in objects' ==> q in objects
    ensures SameBut(objects', objects, p)
  {
    hide Agree;
  }

  /** When no live chunk changes size, the objects are the same. */
  lemma HeaderStoresKeepAll(bytes: seq<byte>, bytes': seq<byte>, tiles: Tiles, tiles': Tiles,
                            hs: Headers, hs': Headers, usage: nat, h: nat)
    requires usage <= |bytes|
    requires Tiling(tiles, usage, h) && Fits(bytes, tiles, h) && Fits(bytes', tiles', h)
    requires OnlyHeaders(bytes', bytes, tiles, h)
    requires SameLive(tiles', hs', tiles, hs)
    requires forall a :: a in tiles && a in tiles' && Live(tiles, hs, a) ==> tiles'[a] == tiles[a]
    ensures ObjectsOf(bytes', tiles', hs', h) == ObjectsOf(bytes, tiles, hs, h)
  {
    hide Tiling, OnlyHeaders, ObjectsOf, Live, Agree, Fits;
    var none := |bytes|;
    HeaderStoresKeepObjects(bytes, bytes', tiles, tiles', hs, hs', usage, h, none);
    NoObjectThere(bytes, tiles, hs, usage, h, none);
    UnownedIsUnchanged(ObjectsOf(bytes', tiles', hs', h), ObjectsOf(bytes, tiles, hs, h), none + h);
  }

  lemma NoObjectThere(bytes: seq<byte>, tiles: Tiles, hs: Headers, usage: nat, h: nat, a: nat)
    requires Tiling(tiles, usage, h) && Fits(bytes, tiles, h) && usage <= a
    ensures a + h !in ObjectsOf(bytes, tiles, hs, h)
  {
    hide Tiling, ObjectsOf, Fits;
    TileBounds(tiles, usage, h);
    SizeOfObject(bytes, tiles, hs, h, a);
  }

  /** The same objects, but the one at `p` may have been given more bytes at its end. */
  ghost predicate Grown(objects': map<nat, seq<byte>>, objects: map<nat, seq<byte>>, p: nat) {
    && objects'.Keys == objects.Keys
    && forall q :: q in objects ==> objects[q] <= objects'[q] && (q != p ==> objects'[q] == objects[q])
  }

  lemma GrownByNothing(objects: map<nat, seq<byte>>, p: nat)
    ensures Grown(objects, objects, p)
  {
  }

  lemma GrownComposes(o1: map<nat, seq<byte>>, o2: map<nat, seq<byte>>, o3: map<nat, seq<byte>>, p: nat)
    requires Grown(o2, o1, p) && Grown(o3, o2, p)
    ensures Grown(o3, o1, p)
  {
  }

  lemma GrownIsSameBut(objects': map<nat, seq<byte>>, objects: map<nat, seq<byte>>, p: nat)
    requires Grown(objects', objects, p)
    ensures SameBut(objects', objects, p)
  {
  }

  lemma ShrunkAfterGrowth(o1: map<nat, seq<byte>>, o2: map<nat, seq<byte>>, o3: map<nat, seq<byte>>, p: nat)
    requires Grown(o2, o1, p) && SameBut(o3, o2, p)
    requires p in o1 && p in o3 ==> |o1[p]| <= |o3[p]|
    ensures SameBut(o3, o1, p)
  {
    assert p in o1 ==> p in o2 && p in o3;
  }

  lemma MergeKeepsObjects(bytes: seq<byte>, bytes': seq<byte>, tiles: Tiles, hs: Headers, hs': Headers,
                          usage: nat, h: nat, c: nat)
    requires usage <= |bytes| && Tiling(tiles, usage, h)
    requires c in tiles && End(tiles, c, h) in tiles && !Live(tiles, hs, End(tiles, c, h))
    requires OnlyHeaders(bytes', bytes, tiles, h)
    requires FlagsStay(hs', hs, tiles)
    ensures Fits(bytes, tiles, h) && Fits(bytes', Merged(tiles, c, h), h)
    ensures Grown(ObjectsOf(bytes', Merged(tiles, c, h), hs', h), ObjectsOf(bytes, tiles, hs, h), c + h)
  {
    hide Tiling, OnlyHeaders, ObjectsOf, Fits, Merged, Live, Agree;
    LengthStays(bytes', bytes, tiles, h);
    MergeKeepsTiling(tiles, usage, h, c);
    TilesFit(bytes, tiles, usage, h);
    TilesFit(bytes', Merged(tiles, c, h), usage, h);
    MergeKeepsLive(tiles, hs, hs', h, c);
    HeaderStoresKeepObjects(bytes, bytes', tiles, Merged(tiles, c, h), hs, hs', usage, h, c);
    SizeOfObject(bytes, tiles, hs, h, c);
    SizeOfObject(bytes', Merged(tiles, c, h), hs', h, c);
    AgreeAndLonger(ObjectsOf(bytes', Merged(tiles, c, h), hs', h), ObjectsOf(bytes, tiles, hs, h), c + h);
  }

  lemma MergeKeepsLive(tiles: Tiles, hs: Headers, hs': Headers, h: nat, c: nat)
    requires c in tiles && End(tiles, c, h) in tiles && !Live(tiles, hs, End(tiles, c, h))
    requires FlagsStay(hs', hs, tiles)
    ensures SameLive(Merged(tiles, c, h), hs', tiles, hs)
  {
  }

  lemma AgreeAndLonger(objects': map<nat, seq<byte>>, objects: map<nat, seq<byte>>, p: nat)
    requires SameBut(objects', objects, p)
    requires p in objects && p in objects' ==> |objects[p]| <= |objects'[p]|
    ensures Grown(objects', objects, p)
  {
    assert p in objects ==> p in objects';
  }

  /** The last chunk grows. */
  lemma GrowKeepsObjects(bytes: seq<byte>, bytes': seq<byte>, tiles: Tiles, hs: Headers, hs': Headers,
                         usage: nat, h: nat, c: nat, size: nat)
    requires usage <= |bytes| && Tiling(tiles, usage, h)
    requires c in tiles && tiles[c] <= size && Fits(bytes', tiles[c := size], h)
    requires OnlyHeaders(bytes', bytes, tiles[c := size], h)
    requires FlagsStay(hs', hs, tiles)
    ensures Fits(bytes, tiles, h)
    ensures Grown(ObjectsOf(bytes', tiles[c := size], hs', h), ObjectsOf(bytes, tiles, hs, h), c + h)
  {
    hide Tiling, OnlyHeaders, ObjectsOf, Fits;
    TilesFit(bytes, tiles, usage, h);
    FewerHeaders(bytes', bytes, tiles[c := size], tiles, h);
    HeaderStoresKeepObjects(bytes, bytes', tiles, tiles[c := size], hs, hs', usage, h, c);
    SizeOfObject(bytes, tiles, hs, h, c);
    SizeOfObject(bytes', tiles[c := size], hs', h, c);
    AgreeAndLonger(ObjectsOf(bytes', tiles[c := size], hs', h), ObjectsOf(bytes, tiles, hs, h), c + h);
  }

  /** A chunk is handed out. */
  lemma OneMoreObject(bytes: seq<byte>, bytes': seq<byte>, tiles: Tiles, hs: Headers, hs': Headers,
                      usage: nat, h: nat, c: nat)
    requires usage <= |bytes| && Tiling(tiles, usage, h)
    requires Fits(bytes, tiles, h) && Fits(bytes', tiles, h)
    requires OnlyHeaders(bytes', bytes, tiles, h)
    requires c in tiles && !Live(tiles, hs, c) && Live(tiles, hs', c)
    requires forall a: nat :: a != c ==> (Live(tiles, hs, a) <==> Live(tiles, hs', a))
    ensures var objects := ObjectsOf(bytes, tiles, hs, h);
      var objects' := ObjectsOf(bytes', tiles, hs', h);
      Added(objects', objects, c + h) && |objects'[c + h]| == tiles[c]
  {
    hide Tiling, OnlyHeaders, ObjectsOf, Live, Fits;
    var objects, objects' := ObjectsOf(bytes, tiles, hs, h), ObjectsOf(bytes', tiles, hs', h);
    SizeOfObject(bytes, tiles, hs, h, c);
    SizeOfObject(bytes', tiles, hs', h, c);
    forall p | p in objects
      ensures p in objects' && p != c + h && objects'[p] == objects[p]
    {
      assert Live(tiles, hs, p - h);
      assert Live(tiles, hs', p - h);
      ObjectStays(bytes, bytes', tiles, tiles, hs, hs', usage, h, p);
    }
    forall p | p in objects' && p != c + h
      ensures p in objects
    {
      assert Live(tiles, hs', p - h);
      assert Live(tiles, hs, p - h);
    }
  }

  /** A chunk is taken back. */
  lemma OneObjectLess(bytes: seq<byte>, bytes': seq<byte>, tiles: Tiles, tiles': Tiles, hs: Headers, hs': Headers,
                      usage: nat, h: nat, c: nat)
    requires usage <= |bytes| && Tiling(tiles, usage, h)
    requires Fits(bytes, tiles, h) && Fits(bytes', tiles', h)
    requires OnlyHeaders(bytes', bytes, tiles, h)
    requires forall a: nat :: Live(tiles', hs', a) <==> a != c && Live(tiles, hs, a)
    requires forall a :: a in tiles' && a in tiles ==> tiles'[a] == tiles[a]
    ensures ObjectsOf(bytes', tiles', hs', h) == ObjectsOf(bytes, tiles, hs, h) - {c + h}
  {
    hide Tiling, OnlyHeaders, ObjectsOf, Live, Fits;
    var objects, objects' := ObjectsOf(bytes, tiles, hs, h), ObjectsOf(bytes', tiles', hs', h);
    forall p | p in objects'
      ensures p in objects && p != c + h && objects'[p] == objects[p]
    {
      assert Live(tiles', hs', p - h);
      assert Live(tiles, hs, p - h);
      ObjectStays(bytes, bytes', tiles, tiles', hs, hs', usage, h, p);
    }
    forall p | p in objects && p != c + h
      ensures p in objects'
    {
      assert Live(tiles, hs, p - h);
      assert Live(tiles', hs', p - h);
    }
  }

  /** Laying out a chunk that is not handed out yet changes no object. */
  lemma AppendKeepsObjects(bytes: seq<byte>, bytes': seq<byte>, tiles: Tiles, hs: Headers, hs': Headers, usage: nat,
                           h: nat, size: nat)
    requires Tiling(tiles, usage, h) && size > 0 && usage + h + size <= |bytes|
    requires usage in hs' && !hs'[usage].inUse && FlagsStay(hs', hs, tiles)
    requires SameExcept(bytes', bytes, usage, usage + h)
    ensures Fits(bytes, tiles, h) && Fits(bytes', tiles[usage := size], h)
    ensures ObjectsOf(bytes', tiles[usage := size], hs', h) == ObjectsOf(bytes, tiles, hs, h)
  {
    hide Tiling, OnlyHeaders, ObjectsOf, Fits, SameExcept, SameLive;
    var tiles' := tiles[usage := size];
    AppendKeepsTiling(tiles, usage, h, size);
    TilesFit(bytes, tiles, usage, h);
    TilesFit(bytes, tiles', usage + h + size, h);
    NoStore(bytes, tiles, h);
    AppendKeepsLive(tiles, hs, hs', usage, size);
    HeaderStoresKeepAll(bytes, bytes, tiles, tiles', hs, hs', usage, h);
    OneHeaderOnly(bytes', bytes, tiles', h, usage);
    LengthStays(bytes', bytes, tiles', h);
    TilesFit(bytes', tiles', usage + h + size, h);
    SameLiveAsItself(tiles', hs');
    HeaderStoresKeepAll(bytes, bytes', tiles', tiles', hs', hs', usage + h + size, h);
  }

  lemma AppendKeepsLive(tiles: Tiles, hs: Headers, hs': Headers, usage: nat, size: nat)
    requires usage !in tiles && usage in hs' && !hs'[usage].inUse && FlagsStay(hs', hs, tiles)
    ensures SameLive(tiles[usage := size], hs', tiles, hs)
  {
  }

  lemma SameLiveAsItself(tiles: Tiles, hs: Headers)
    ensures SameLive(tiles, hs, tiles, hs)
  {
  }

  lemma UnownedIsUnchanged(objects': map<nat, seq<byte>>, objects: map<nat, seq<byte>>, p: nat)
    requires p !in objects
    ensures SameBut(objects', objects, p) ==> objects' == objects
    ensures Grown(objects', objects, p) ==> objects' == objects
  {
  }

  lemma FreeListHead(free: seq<nat>, hs: Headers, head: Link)
    requires FreeList(free, hs, head)
    ensures head == LinkAt(free, 0)
  {
  }

  lemma NextOfFree(free: seq<nat>, hs: Headers, head: Link, k: nat)
    requires FreeList(free, hs, head) && k < |free|
    ensures free[k] in hs && hs[free[k]].next == LinkAt(free, k + 1)
  {
    assert LinkedAt(free, hs, k);
  }

  /** `data` stored over the contents of one object, from byte `at` on. */
  function Patched(content: seq<byte>, at: nat, data: seq<byte>): seq<byte>
    requires at + |data| <= |content|
  {
    content[..at] + data + content[at + |data|..]
  }

  /** Stores into the payload of one live chunk touch no header and no other object. */
  lemma PayloadStore(bytes: seq<byte>, bytes': seq<byte>, tiles: Tiles, hs: Headers, hs': Headers,
                     usage: nat, h: nat, c: nat, at: nat, data: seq<byte>)
    requires |bytes| == |bytes'| && usage <= |bytes| && Tiling(tiles, usage, h)
    requires Fits(bytes, tiles, h) && Fits(bytes', tiles, h)
    requires HaveHeaders(tiles, hs)
    requires c in tiles && Live(tiles, hs, c) && at + |data| <= tiles[c]
    requires hs' == Overwritten(hs, c + h + at, c + h + at + |data|, h)
    requires c + h + at + |data| <= |bytes| && bytes' == Patched(bytes, c + h + at, data)
    ensures var objects := ObjectsOf(bytes, tiles, hs, h);
      && c + h in objects && |objects[c + h]| == tiles[c]
      && ObjectsOf(bytes', tiles, hs', h) == objects[c + h := Patched(objects[c + h], at, data)]
  {
    hide Tiling, ObjectsOf, Overwritten, Fits, Live, Patched;
    TileContinued(tiles, usage, h, c);
    OverwrittenKeeps(tiles, usage, h, hs, c, c + h + at, c + h + at + |data|);
    var objects, objects' := ObjectsOf(bytes, tiles, hs, h), ObjectsOf(bytes', tiles, hs', h);
    SizeOfObject(bytes, tiles, hs, h, c);
    StoredInto(bytes, bytes', tiles, hs, hs', h, c, at, data);
    forall q | q in objects && q != c + h
      ensures q in objects' && objects'[q] == objects[q]
    {
      assert Live(tiles, hs, q - h);
      assert Live(tiles, hs', q - h);
      StoredElsewhere(bytes, bytes', tiles, hs, hs', usage, h, c, at, data, q);
    }
    forall q | q in objects'
      ensures q in objects
    {
      assert Live(tiles, hs', q - h);
      assert Live(tiles, hs, q - h);
    }
  }

  lemma StoredInto(bytes: seq<byte>, bytes': seq<byte>, tiles: Tiles, hs: Headers, hs': Headers,
                   h: nat, c: nat, at: nat, data: seq<byte>)
    requires Fits(bytes, tiles, h) && Fits(bytes', tiles, h) && Live(tiles, hs, c) && Live(tiles, hs', c)
    requires c in tiles && at + |data| <= tiles[c] && c + h + at + |data| <= |bytes|
    requires bytes' == Patched(bytes, c + h + at, data)
    ensures var objects, objects' := ObjectsOf(bytes, tiles, hs, h), ObjectsOf(bytes', tiles, hs', h);
      && c + h in objects && c + h in objects' && |objects[c + h]| == tiles[c]
      && objects'[c + h] == Patched(objects[c + h], at, data)
  {
    hide ObjectsOf, Live, Patched;
    SizeOfObject(bytes, tiles, hs, h, c);
    SizeOfObject(bytes', tiles, hs', h, c);
    ChunkFits(bytes, tiles, h, c);
    PatchInside(bytes, bytes', c + h, End(tiles, c, h), at, data);
  }

  lemma StoredElsewhere(bytes: seq<byte>, bytes': seq<byte>, tiles: Tiles, hs: Headers, hs': Headers,
                        usage: nat, h: nat, c: nat, at: nat, data: seq<byte>, q: nat)
    requires Tiling(tiles, usage, h) && Fits(bytes, tiles, h) && Fits(bytes', tiles, h) && c in tiles
    requires at + |data| <= tiles[c] && c + h + at + |data| <= |bytes| && bytes' == Patched(bytes, c + h + at, data)
    requires q in ObjectsOf(bytes, tiles, hs, h) && q != c + h && Live(tiles, hs', q - h)
    ensures q in ObjectsOf(bytes', tiles, hs', h)
    ensures ObjectsOf(bytes', tiles, hs', h)[q] == ObjectsOf(bytes, tiles, hs, h)[q]
  {
    hide Tiling, ObjectsOf, Live, Patched;
    TilesMiss(tiles, usage, h, c, q - h);
    ChunkFits(bytes, tiles, h, q - h);
    PatchOutside(bytes, bytes', q, End(tiles, q - h, h), c + h + at, data);
  }

  lemma OverwrittenKeeps(tiles: Tiles, usage: nat, h: nat, hs: Headers, c: nat, lo: nat, hi: nat)
    requires Tiling(tiles, usage, h) && c in tiles && c + h <= lo <= hi <= End(tiles, c, h)
    requires HaveHeaders(tiles, hs)
    ensures HeadersStay(Overwritten(hs, lo, hi, h), hs, tiles)
    ensures SameLive(tiles, Overwritten(hs, lo, hi, h), tiles, hs)
  {
    hide Tiling, Overwritten;
    forall a | a in tiles
      ensures a + h <= lo || hi <= a
    {
      if a != c {
        TilesMiss(tiles, usage, h, c, a);
      }
    }
  }

  lemma PatchInside(bytes: seq<byte>, bytes': seq<byte>, start: nat, end: nat, at: nat, data: seq<byte>)
    requires start + at + |data| <= end <= |bytes|
    requires bytes' == Patched(bytes, start + at, data)
    ensures bytes'[start..end] == Patched(bytes[start..end], at, data)
  {
    hide Patched;
    PatchedLength(bytes, start + at, data);
    PatchedLength(bytes[start..end], at, data);
    forall i: nat | i < end - start
      ensures bytes'[start..end][i] == Patched(bytes[start..end], at, data)[i]
    {
      PatchedAt(bytes, start + at, data, start + i);
      PatchedAt(bytes[start..end], at, data, i);
    }
  }

  lemma PatchedLength(content: seq<byte>, at: nat, data: seq<byte>)
    requires at + |data| <= |content|
    ensures |Patched(content, at, data)| == |content|
  {
  }

  lemma PatchedAt(content: seq<byte>, at: nat, data: seq<byte>, i: nat)
    requires at + |data| <= |content| && i < |content|
    ensures |Patched(content, at, data)| == |content|
    ensures Patched(content, at, data)[i] == if at <= i < at + |data| then data[i - at] else content[i]
  {
  }

  lemma PatchedIs(was: seq<byte>, now: seq<byte>, p: nat, data: seq<byte>)
    requires |now| == |was| && p + |data| <= |was| && forall k :: 0 <= k < |data| ==> now[p + k] == data[k]
    requires forall k :: 0 <= k < |was| && (k < p || p + |data| <= k) ==> now[k] == was[k]
    ensures now == Patched(was, p, data)
  {
    hide Patched;
    PatchedLength(was, p, data);
    forall k: nat | k < |was|
      ensures now[k] == Patched(was, p, data)[k]
    {
      PatchedAt(was, p, data, k);
      if p <= k < p + |data| {
        assert now[p + (k - p)] == data[k - p];
      }
    }
  }

  lemma BytesOfObject(bytes: seq<byte>, tiles: Tiles, hs: Headers, h: nat, p: nat, n: nat)
    requires Fits(bytes, tiles, h) && p in ObjectsOf(bytes, tiles, hs, h) && n <= |ObjectsOf(bytes, tiles, hs, h)[p]|
    ensures p + n <= |bytes| && ObjectsOf(bytes, tiles, hs, h)[p][..n] == bytes[p..p + n]
  {
    hide ObjectsOf;
  }

  lemma PatchOutside(bytes: seq<byte>, bytes': seq<byte>, start: nat, end: nat, lo: nat, data: seq<byte>)
    requires start <= end <= |bytes| && lo + |data| <= |bytes| && (end <= lo || lo + |data| <= start)
    requires bytes' == Patched(bytes, lo, data)
    ensures bytes'[start..end] == bytes[start..end]
  {
  }

  lemma TilesMiss(tiles: Tiles, usage: nat, h: nat, c: nat, a: nat)
    requires Tiling(tiles, usage, h) && c in tiles && a in tiles && a != c
    ensures End(tiles, a, h) <= c || End(tiles, c, h) <= a
    ensures End(tiles, a, h) <= usage
  {
    hide Tiling;
    TileBounds(tiles, usage, h);
    TilesOrdered(tiles, usage, h, a, c);
    TilesOrdered(tiles, usage, h, c, a);
  }

  /** Exactly one object more, at a new address. */
  ghost predicate Added(objects': map<nat, seq<byte>>, objects: map<nat, seq<byte>>, p: nat) {
    p !in objects && p in objects' && objects' - {p} == objects
  }

  /** The object at `p` now lives at `q`, with at least `size` bytes; its contents came along as far
      as both extents reach, and no other object changed. */
  ghost predicate Moved(objects': map<nat, seq<byte>>, objects: map<nat, seq<byte>>, p: nat, q: nat, size: nat) {
    && p in objects && q in objects' && (q == p || q !in objects)
    && objects' - {q} == objects - {p}
    && size <= |objects'[q]| && Agree(objects'[q], objects[p])
  }

  lemma MovedInPlace(objects': map<nat, seq<byte>>, objects: map<nat, seq<byte>>, p: nat, size: nat)
    requires SameBut(objects', objects, p) && p in objects && p in objects' && size <= |objects'[p]|
    ensures Moved(objects', objects, p, p, size)
  {
  }

  lemma MovedAfterGrowth(o1: map<nat, seq<byte>>, o2: map<nat, seq<byte>>, o3: map<nat, seq<byte>>, p: nat, q: nat,
                         size: nat)
    requires Grown(o2, o1, p) && p in o1
    requires q !in o2 && q in o3 && o3 - {q} == o2 - {p} && |o1[p]| <= size <= |o3[q]|
    requires p in o2 && o3[q][..|o1[p]|] == o2[p][..|o1[p]|]
    ensures Moved(o3, o1, p, q, size)
  {
    assert o1 - {p} == o2 - {p};
  }

  /** The bytes of all objects whose pointers lie below `limit`. */
  function Total(objects: map<nat, seq<byte>>, limit: nat): nat {
    if limit == 0 then 0
    else Total(objects, limit - 1) + if limit - 1 in objects then |objects[limit - 1]| else 0
  }

  function Below(objects: map<nat, seq<byte>>, limit: nat): set<nat> {
    set p | p in objects && p < limit
  }

  lemma {:induction false} NothingBetween(objects: map<nat, seq<byte>>, lo: nat, hi: nat)
    requires lo <= hi && forall p :: p in objects ==> p < lo || hi <= p
    ensures Total(objects, hi) == Total(objects, lo) && Below(objects, hi) == Below(objects, lo)
    decreases hi
  {
    if lo < hi {
      NothingBetween(objects, lo, hi - 1);
    }
  }

  lemma NothingBelowZero(objects: map<nat, seq<byte>>)
    ensures Total(objects, 0) == 0 && Below(objects, 0) == {}
  {
  }

  /** Between two bounds there is one pointer at most, at the lower one. */
  lemma OneBetween(objects: map<nat, seq<byte>>, lo: nat, hi: nat)
    requires lo < hi && forall p :: p in objects ==> p <= lo || hi <= p
    ensures Total(objects, hi) == Total(objects, lo) + if lo in objects then |objects[lo]| else 0
    ensures |Below(objects, hi)| == |Below(objects, lo)| + if lo in objects then 1 else 0
  {
    NothingBetween(objects, lo + 1, hi);
    if lo in objects {
      assert Below(objects, lo + 1) == Below(objects, lo) + {lo};
    } else {
      assert Below(objects, lo + 1) == Below(objects, lo);
    }
  }
}
