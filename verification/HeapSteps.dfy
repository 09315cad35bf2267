/** What each operation of the allocator does to a heap zone: the chunks, their headers, the free list and the
    objects before and after it.  Everything here is about values. */
module HeapSteps {
  import opened Bits
  import opened HeapLayout

  // ---------------------------------------------------------------------------------------------
  // Cutting a chunk

  /** The chunk at `a` has been cut after `offset` bytes and the rest freed. */
  ghost predicate CutShape(tiles': Tiles, free': seq<nat>, usage': nat, tiles: Tiles, free: seq<nat>, usage: nat,
                           h: nat, a: nat, offset: nat)
    requires a in tiles && offset + h < tiles[a]
  {
    var b := a + h + offset;
    var cut := Cut(tiles, a, offset, h);
    if End(tiles, a, h) == usage then usage' == b && tiles' == cut - {b} && free' == free
    else usage' == usage && tiles' == cut && free' == [b] + free
  }

  /** The chunk at `a` has been cut to `size` bytes if that leaves more than a header. */
  ghost predicate Trimmed(tiles': Tiles, free': seq<nat>, usage': nat, tiles: Tiles, free: seq<nat>, usage: nat,
                          h: nat, a: nat, size: nat)
    requires a in tiles
  {
    if size + h < tiles[a] then CutShape(tiles', free', usage', tiles, free, usage, h, a, size)
    else tiles' == tiles && free' == free && usage' == usage
  }

  /** No chunk is in use that was not. */
  ghost predicate CutFlags(hs': Headers, hs: Headers, tiles': Tiles, tiles: Tiles) {
    forall k :: k in tiles' ==> k in hs' && hs'[k].inUse == (k in tiles && k in hs && hs[k].inUse)
  }

  lemma HeaderLaidInside(tiles: Tiles, usage: nat, h: nat, hs: Headers, a: nat, offset: nat, hd: Header)
    requires Tiling(tiles, usage, h) && HaveHeaders(tiles, hs)
    requires a in tiles && 0 < offset && offset + h < tiles[a]
    ensures var b := a + h + offset;
            var hs' := Stored(hs, b, hd, h);
            && b !in tiles && b in hs' && hs'[b] == hd
            && HeadersStay(hs', hs, tiles) && HaveHeaders(Cut(tiles, a, offset, h), hs')
  {
    hide Tiling, Stored, Apart;
    CutKeepsTiling(tiles, usage, h, a, offset);
    CutIsApart(tiles, usage, h, a, offset);
  }

  lemma ListInCut(free: seq<nat>, hs: Headers, hs': Headers, head: Link, tiles: Tiles, h: nat, a: nat, offset: nat)
    requires a in tiles && offset + h < tiles[a] && HeadersStay(hs', hs, tiles)
    requires FreeList(free, hs, head) && ListOfTiles(free, tiles)
    ensures FreeList(free, hs', head) && ListOfTiles(free, Cut(tiles, a, offset, h))
  {
    hide FreeList;
    FreeListOfLinks(free, hs, hs', head);
  }

  lemma CutMatches(tiles: Tiles, hs: Headers, hs1: Headers, hs2: Headers, hs3: Headers, tiles': Tiles, h: nat, a: nat,
                   offset: nat)
    requires a in tiles && offset + h < tiles[a] && SizesMatch(tiles, hs) && HeadersStay(hs1, hs, tiles)
    requires var b := a + h + offset;
             var cut := Cut(tiles, a, offset, h);
             && b in hs1 && hs1[b].size == tiles[a] - h - offset && !hs1[b].inUse && b !in tiles
             && (tiles' == cut || tiles' == cut - {b}) && Freed(hs2, hs1, cut, b)
    requires a in hs2 && HeaderSet(hs3, hs2, tiles', a, hs2[a].(size := offset, prev := Null, next := Null))
    ensures SizesMatch(tiles', hs3) && CutFlags(hs3, hs, tiles', tiles)
  {
  }

  lemma CutMatchesFree(tiles': Tiles, free': seq<nat>, usage': nat, hs': Headers, tiles: Tiles, free: seq<nat>,
                       usage: nat, hs: Headers, h: nat, a: nat, offset: nat, pending: set<nat>)
    requires a in tiles && offset + h < tiles[a] && a + h + offset !in tiles && pending <= {a}
    requires CutShape(tiles', free', usage', tiles, free, usage, h, a, offset) && CutFlags(hs', hs, tiles', tiles)
    requires HaveHeaders(tiles, hs) && FreeMatches(free, tiles, hs, pending)
    ensures FreeMatches(free', tiles', hs', pending)
  {
  }

  lemma CutKeepsLive(tiles': Tiles, hs': Headers, tiles: Tiles, hs: Headers, h: nat, a: nat, offset: nat)
    requires a in tiles && offset + h < tiles[a] && a + h + offset !in tiles && HaveHeaders(tiles, hs)
    requires var cut := Cut(tiles, a, offset, h); tiles' == cut || tiles' == cut - {a + h + offset}
    requires CutFlags(hs', hs, tiles', tiles)
    ensures SameLive(tiles', hs', tiles, hs)
  {
  }

  lemma CutKeepsObjects(bytes: seq<byte>, bytes': seq<byte>, tiles: Tiles, tiles': Tiles, hs: Headers, hs': Headers,
                        usage: nat, h: nat, a: nat, offset: nat)
    requires usage <= |bytes| && Tiling(tiles, usage, h) && a in tiles && 0 < offset && offset + h < tiles[a]
    requires Fits(bytes', tiles', h) && Fits(bytes, tiles, h) && HaveHeaders(tiles, hs)
    requires var cut := Cut(tiles, a, offset, h); tiles' == cut || tiles' == cut - {a + h + offset}
    requires CutFlags(hs', hs, tiles', tiles)
    requires OnlyHeaders(bytes', bytes, Cut(tiles, a, offset, h), h)
    ensures SameBut(ObjectsOf(bytes', tiles', hs', h), ObjectsOf(bytes, tiles, hs, h), a + h)
  {
    hide Tiling, OnlyHeaders, Live, Fits, ObjectsOf, SameBut, CutFlags, HaveHeaders;
    var b, cut := a + h + offset, Cut(tiles, a, offset, h);
    var cutHs := hs[b := Header(Null, Null, 0, false)];
    CutKeepsTiling(tiles, usage, h, a, offset);
    TilesFit(bytes, cut, usage, h);
    NoStore(bytes, tiles, h);
    NothingNewLive(tiles, hs, cutHs, h, a, offset);
    HeaderStoresKeepObjects(bytes, bytes, tiles, cut, hs, cutHs, usage, h, a);
    CutKeepsLive(tiles', hs', tiles, hs, h, a, offset);
    HeaderStoresKeepAll(bytes, bytes', cut, tiles', cutHs, hs', usage, h);
  }

  lemma NothingNewLive(tiles: Tiles, hs: Headers, hs': Headers, h: nat, a: nat, offset: nat)
    requires a in tiles && offset + h < tiles[a] && a + h + offset !in tiles
    requires hs' == hs[a + h + offset := Header(Null, Null, 0, false)]
    ensures SameLive(Cut(tiles, a, offset, h), hs', tiles, hs)
  {
  }

  // ---------------------------------------------------------------------------------------------
  // Absorbing the next chunk

  lemma MergedLayout(tiles: Tiles, usage: nat, h: nat, hs: Headers, hs1: Headers, hs2: Headers, free: seq<nat>,
                     free': seq<nat>, a: nat, b: nat)
    requires Tiling(tiles, usage, h) && SizesMatch(tiles, hs) && FreeMatches(free, tiles, hs, {})
    requires a in tiles && b in tiles && b == End(tiles, a, h) && a in hs && b in hs && !hs[b].inUse
    requires HeaderSet(hs1, hs, tiles, a, hs[a].(size := hs[a].size + h + hs[b].size)) && TagsStay(hs2, hs1, tiles)
    requires free' == Among(free, tiles.Keys - {b})
    ensures var merged := Merged(tiles, a, h);
            && HaveHeaders(merged, hs2) && SizesMatch(merged, hs2) && free' == Among(free, merged.Keys)
            && ListOfTiles(free', merged) && FreeMatches(free', merged, hs2, {}) && FlagsStay(hs2, hs, tiles)
  {
    hide Tiling, Among;
    MergedKeys(tiles, h, a, usage);
  }

  // ---------------------------------------------------------------------------------------------
  // Handing out and taking back

  lemma TakenFromList(free: seq<nat>, free': seq<nat>, tiles: Tiles, hs: Headers, hs': Headers, a: nat)
    requires FreeMatches(free, tiles, hs, {}) && TagsStay(hs', hs, tiles) && a in free
    requires free' == Among(free, tiles.Keys - {a})
    ensures FreeMatches(free', tiles, hs', {a}) && a !in free' && FlagsStay(hs', hs, tiles)
  {
    hide Among;
  }

  lemma TagsKeepSizes(tiles: Tiles, hs: Headers, hs': Headers)
    requires SizesMatch(tiles, hs) && TagsStay(hs', hs, tiles)
    ensures SizesMatch(tiles, hs')
  {
  }

  lemma FlagsKeepLive(tiles: Tiles, hs: Headers, hs': Headers)
    requires FlagsStay(hs', hs, tiles)
    ensures SameLive(tiles, hs', tiles, hs)
  {
  }

  lemma NowInUse(free: seq<nat>, tiles: Tiles, hs: Headers, hs': Headers, a: nat)
    requires a in tiles && a in hs && !hs[a].inUse && HeaderSet(hs', hs, tiles, a, hs[a].(inUse := true))
    requires SizesMatch(tiles, hs) && FreeMatches(free, tiles, hs, {a})
    ensures SizesMatch(tiles, hs') && FreeMatches(free, tiles, hs', {})
    ensures !Live(tiles, hs, a) && Live(tiles, hs', a)
    ensures forall k: nat :: k != a ==> (Live(tiles, hs, k) <==> Live(tiles, hs', k))
  {
  }

  /** A chunk that was in use is freed: it goes to the front of the list, or away if it was the last. */
  lemma FreedLayout(tiles: Tiles, tiles': Tiles, hs: Headers, hs': Headers, free: seq<nat>, free': seq<nat>, a: nat)
    requires a in tiles && a in hs && hs[a].inUse && SizesMatch(tiles, hs) && FreeMatches(free, tiles, hs, {})
    requires Freed(hs', hs, tiles, a)
    requires (tiles' == tiles && free' == [a] + free) || (tiles' == tiles - {a} && free' == free)
    ensures SizesMatch(tiles', hs') && FreeMatches(free', tiles', hs', {})
    ensures forall k: nat :: Live(tiles', hs', k) <==> k != a && Live(tiles, hs, k)
    ensures forall k :: k in tiles' && k in tiles ==> tiles'[k] == tiles[k]
  {
  }

  /** And its object is gone. */
  lemma Released(bytes: seq<byte>, bytes': seq<byte>, tiles: Tiles, tiles': Tiles, hs: Headers, hs': Headers,
                 free: seq<nat>, free': seq<nat>, usage: nat, usage': nat, h: nat, a: nat)
    requires Tiling(tiles, usage, h) && usage <= |bytes| && Tiling(tiles', usage', h) && usage' <= |bytes|
    requires a in tiles && a in hs && hs[a].inUse && SizesMatch(tiles, hs) && FreeMatches(free, tiles, hs, {})
    requires Freed(hs', hs, tiles, a) && OnlyHeaders(bytes', bytes, tiles, h)
    requires (tiles' == tiles && free' == [a] + free) || (tiles' == tiles - {a} && free' == free)
    ensures SizesMatch(tiles', hs') && FreeMatches(free', tiles', hs', {})
    ensures |bytes'| == |bytes| && Fits(bytes', tiles', h) && Fits(bytes, tiles, h)
    ensures ObjectsOf(bytes', tiles', hs', h) == ObjectsOf(bytes, tiles, hs, h) - {a + h}
  {
    hide Tiling, OnlyHeaders, ObjectsOf, Fits, SizesMatch, FreeMatches, Freed, Live;
    LengthStays(bytes', bytes, tiles, h);
    TilesFit(bytes, tiles, usage, h);
    TilesFit(bytes', tiles', usage', h);
    FreedLayout(tiles, tiles', hs, hs', free, free', a);
    OneObjectLess(bytes, bytes', tiles, tiles', hs, hs', usage, h, a);
  }

  // ---------------------------------------------------------------------------------------------
  // The end of the heap

  lemma AppendedLayout(tiles: Tiles, usage: nat, h: nat, size: nat, hs: Headers, hd: Header, free: seq<nat>, head: Link)
    requires Tiling(tiles, usage, h) && SizesMatch(tiles, hs) && size > 0 && hd.size == size && !hd.inUse
    requires FreeList(free, hs, head) && ListOfTiles(free, tiles) && FreeMatches(free, tiles, hs, {})
    ensures var tiles', hs' := tiles[usage := size], Stored(hs, usage, hd, h);
            && usage !in tiles && HaveHeaders(tiles', hs') && SizesMatch(tiles', hs') && FlagsStay(hs', hs, tiles)
            && FreeList(free, hs', head) && ListOfTiles(free, tiles') && FreeMatches(free, tiles', hs', {usage})
  {
    hide Tiling, Stored, FreeList;
    PayloadsNotEmpty(tiles, usage, h);
    var hs' := Stored(hs, usage, hd, h);
    assert forall k :: k in tiles ==> Apart(k, usage, h);
    assert HeadersStay(hs', hs, tiles);
    FreeListOfLinks(free, hs, hs', head);
  }

  /** The last chunk has been stretched and its header assigned. */
  lemma Stretched(bytes: seq<byte>, bytes': seq<byte>, tiles: Tiles, hs: Headers, hs': Headers, free: seq<nat>,
                  head: Link, usage: nat, h: nat, a: nat, size: nat)
    requires Tiling(tiles, usage, h) && usage <= |bytes| && a in tiles && a in hs && tiles[a] <= size
    requires SizesMatch(tiles, hs) && FreeMatches(free, tiles, hs, {})
    requires FreeList(free, hs, head) && ListOfTiles(free, tiles)
    requires HeaderSet(hs', hs, tiles[a := size], a, hs[a].(size := size))
    requires OnlyHeaders(bytes', bytes, tiles[a := size], h) && Fits(bytes', tiles[a := size], h)
    ensures SizesMatch(tiles[a := size], hs') && FreeMatches(free, tiles[a := size], hs', {})
    ensures FreeList(free, hs', head) && ListOfTiles(free, tiles[a := size])
    ensures a in hs' && hs'[a].inUse == hs[a].inUse && Fits(bytes, tiles, h)
    ensures Grown(ObjectsOf(bytes', tiles[a := size], hs', h), ObjectsOf(bytes, tiles, hs, h), a + h)
  {
    hide Tiling, OnlyHeaders, ObjectsOf, Fits, FreeList, Grown;
    LinksOfSet(free, hs, hs', tiles[a := size], a, hs[a].(size := size));
    FreeListOfLinks(free, hs, hs', head);
    assert FlagsStay(hs', hs, tiles);
    GrowKeepsObjects(bytes, bytes', tiles, hs, hs', usage, h, a, size);
  }

  lemma StretchKeepsAligned(tiles: Tiles, a: nat, size: nat, alignment: nat)
    requires alignment > 0 && a in tiles && AlignedTiles(tiles, alignment) && Multiple(size, alignment)
    ensures AlignedTiles(tiles[a := size], alignment)
  {
  }

  // ---------------------------------------------------------------------------------------------
  // Defragmenting

  ghost predicate AllSettled(tiles: Tiles, hs: Headers, usage: nat, h: nat, list: seq<nat>) {
    forall a :: a in list ==> Settled(tiles, hs, usage, h, a)
  }

  lemma OneMoreSettled(tiles: Tiles, hs: Headers, usage: nat, h: nat, list: seq<nat>, n: nat)
    requires n < |list| && AllSettled(tiles, hs, usage, h, list[..n]) && Settled(tiles, hs, usage, h, list[n])
    ensures AllSettled(tiles, hs, usage, h, list[..n + 1])
  {
    hide Settled;
    assert list[..n + 1] == list[..n] + [list[n]];
  }

  /** After the chunks behind one have been absorbed, those that were settled before still are. */
  lemma StaySettled(tiles: Tiles, hs: Headers, tiles0: Tiles, hs0: Headers, usage: nat, h: nat, visited: seq<nat>,
                    c: nat)
    requires c in tiles && Coalesced(tiles, hs, tiles0, hs0, c, h) && Settled(tiles, hs, usage, h, c)
    requires AllSettled(tiles0, hs0, usage, h, visited)
    ensures AllSettled(tiles, hs, usage, h, Among(visited, tiles.Keys))
  {
    hide Settled, Coalesced, Among;
    forall a | a in visited && a in tiles
      ensures Settled(tiles, hs, usage, h, a)
    {
      if a != c {
        CoalescedStaySettled(tiles, hs, tiles0, hs0, usage, h, c, a);
      }
    }
  }

  /** No unused chunk before `limit` has an unused one behind it. */
  ghost predicate SettledBelow(tiles: Tiles, hs: Headers, usage: nat, h: nat, limit: nat) {
    forall a :: a in tiles && a < limit && a in hs && !hs[a].inUse ==> Settled(tiles, hs, usage, h, a)
  }

  lemma NoneBelowZero(tiles: Tiles, hs: Headers, usage: nat, h: nat)
    ensures SettledBelow(tiles, hs, usage, h, 0)
  {
  }

  lemma SettledBelowStays(tiles: Tiles, hs: Headers, tiles0: Tiles, hs0: Headers, usage: nat, h: nat, c: nat)
    requires c in tiles && Coalesced(tiles, hs, tiles0, hs0, c, h) && SettledBelow(tiles0, hs0, usage, h, c)
    ensures SettledBelow(tiles, hs, usage, h, c)
  {
    hide Settled;
    forall a | a in tiles && a < c && a in hs && !hs[a].inUse
      ensures Settled(tiles, hs, usage, h, a)
    {
      CoalescedStaySettled(tiles, hs, tiles0, hs0, usage, h, c, a);
    }
  }

  lemma NextIsSettled(tiles: Tiles, hs: Headers, usage: nat, h: nat, c: nat)
    requires Tiling(tiles, usage, h) && c in tiles && SettledBelow(tiles, hs, usage, h, c)
    requires c in hs && (hs[c].inUse || Settled(tiles, hs, usage, h, c))
    ensures SettledBelow(tiles, hs, usage, h, End(tiles, c, h))
  {
    hide Tiling, Settled;
    forall a | a in tiles && a < End(tiles, c, h)
      ensures a <= c
    {
      if c < a {
        TilesOrdered(tiles, usage, h, c, a);
      }
    }
  }

  lemma AllAreSettled(tiles: Tiles, hs: Headers, usage: nat, h: nat)
    requires Tiling(tiles, usage, h) && SettledBelow(tiles, hs, usage, h, usage)
    ensures forall a :: a in tiles && a in hs && !hs[a].inUse ==> Settled(tiles, hs, usage, h, a)
  {
    hide Tiling, Settled;
    TileBounds(tiles, usage, h);
  }

  /** The unused chunks behind a chunk end at a chunk in use or at the end of the heap. */
  lemma {:induction false} FreeEndReached(tiles: Tiles, hs: Headers, usage: nat, h: nat, a: nat)
    requires Tiling(tiles, usage, h) && HaveHeaders(tiles, hs) && a in tiles
    ensures var e := FreeEnd(tiles, hs, usage, a, h);
            && (e == usage || (e in tiles && e in hs && hs[e].inUse))
            && forall x :: x in tiles && a < x < e ==> x in hs && !hs[x].inUse
    decreases usage - a
  {
    hide Tiling;
    var b := End(tiles, a, h);
    TileContinued(tiles, usage, h, a);
    PayloadsNotEmpty(tiles, usage, h);
    if b in tiles && !hs[b].inUse {
      FreeEndReached(tiles, hs, usage, h, b);
    }
    forall x | x in tiles && a < x
      ensures b <= x
    {
      TilesOrdered(tiles, usage, h, a, x);
    }
  }

  /** Absorbing chunks leaves them where they were. */
  lemma CoalescedFreeEnd(tiles': Tiles, hs': Headers, tiles: Tiles, hs: Headers, usage: nat, h: nat, a: nat, x: nat)
    requires Tiling(tiles, usage, h) && HaveHeaders(tiles, hs) && Tiling(tiles', usage, h) && HaveHeaders(tiles', hs')
    requires a in tiles' && x in tiles' && Coalesced(tiles', hs', tiles, hs, a, h)
    ensures x in tiles && FreeEnd(tiles', hs', usage, x, h) == FreeEnd(tiles, hs, usage, x, h)
  {
    hide Tiling, FreeEnd;
    PayloadsNotEmpty(tiles, usage, h);
    FreeEndReached(tiles, hs, usage, h, x);
    FreeEndIs(tiles', hs', usage, x, h, FreeEnd(tiles, hs, usage, x, h));
  }

  lemma FreeEndBehind(tiles: Tiles, hs: Headers, usage: nat, h: nat, a: nat, x: nat)
    requires Tiling(tiles, usage, h) && HaveHeaders(tiles, hs) && a in tiles && x in tiles
    requires a < x < FreeEnd(tiles, hs, usage, a, h)
    ensures FreeEnd(tiles, hs, usage, x, h) == FreeEnd(tiles, hs, usage, a, h)
  {
    hide Tiling, FreeEnd;
    FreeEndReached(tiles, hs, usage, h, a);
    FreeEndIs(tiles, hs, usage, x, h, FreeEnd(tiles, hs, usage, a, h));
  }

  /** The bytes from `a` to `e` lie within one chunk of the list. */
  ghost predicate Covered(tiles: Tiles, h: nat, list: seq<nat>, a: nat, e: nat) {
    exists b :: b in list && b in tiles && b <= a && e <= End(tiles, b, h)
  }

  /** Where the unused chunks behind each chunk end is as it was. */
  ghost predicate SameFreeEnds(tiles': Tiles, hs': Headers, tiles: Tiles, hs: Headers, usage: nat, h: nat) {
    && Tiling(tiles, usage, h) && HaveHeaders(tiles, hs) && Tiling(tiles', usage, h) && HaveHeaders(tiles', hs')
    && forall x :: x in tiles' ==> x in tiles && FreeEnd(tiles', hs', usage, x, h) == FreeEnd(tiles, hs, usage, x, h)
  }

  lemma SameEndsAtFirst(tiles: Tiles, hs: Headers, usage: nat, h: nat)
    requires Tiling(tiles, usage, h) && HaveHeaders(tiles, hs)
    ensures SameFreeEnds(tiles, hs, tiles, hs, usage, h)
  {
  }

  lemma SameEndsStill(tiles2: Tiles, hs2: Headers, tiles1: Tiles, hs1: Headers, tiles: Tiles, hs: Headers, usage: nat,
                      h: nat, a: nat)
    requires SameFreeEnds(tiles1, hs1, tiles, hs, usage, h) && Tiling(tiles2, usage, h) && HaveHeaders(tiles2, hs2)
    requires a in tiles2 && Coalesced(tiles2, hs2, tiles1, hs1, a, h)
    ensures SameFreeEnds(tiles2, hs2, tiles, hs, usage, h)
  {
    hide Tiling, FreeEnd, Coalesced, HaveHeaders;
    forall x | x in tiles2
      ensures x in tiles && FreeEnd(tiles2, hs2, usage, x, h) == FreeEnd(tiles, hs, usage, x, h)
    {
      CoalescedFreeEnd(tiles2, hs2, tiles1, hs1, usage, h, a, x);
    }
  }

  /** Once the chunks behind the one at `c` are absorbed, what `c` and the chunks before it on the list covered
      is still covered, and so is what was absorbed. */
  lemma CoveredByVisit(tiles: Tiles, hs: Headers, tiles': Tiles, hs': Headers, usage: nat, h: nat, before: seq<nat>,
                       c: nat, a: nat, e: nat)
    requires Tiling(tiles, usage, h) && HaveHeaders(tiles, hs) && c in tiles && c !in before
    requires c in tiles' && Coalesced(tiles', hs', tiles, hs, c, h)
    requires End(tiles', c, h) == FreeEnd(tiles, hs, usage, c, h)
    requires Covered(tiles, h, before, a, e)
             || (a in tiles && (a == c || a !in tiles') && e == FreeEnd(tiles, hs, usage, a, h))
    ensures Covered(tiles', h, Among(before, tiles'.Keys) + [c], a, e)
  {
    hide Tiling, FreeEnd, Among;
    var list := Among(before, tiles'.Keys) + [c];
    assert c in list;
    if Covered(tiles, h, before, a, e) {
      var b :| b in before && b in tiles && b <= a && e <= End(tiles, b, h);
      if b in tiles' {
        assert b in list;
      } else {
        FreeEndReached(tiles, hs, usage, h, c);
        TileContinued(tiles, usage, h, b);
        TilesOrdered(tiles, usage, h, b, End(tiles', c, h));
      }
    } else if a != c {
      FreeEndBehind(tiles, hs, usage, h, c, a);
    }
  }

  /** The first element of a selection, and what is selected behind it. */
  lemma {:induction false} FirstAmong(s: seq<nat>, keep: set<nat>) returns (j: nat)
    requires Among(s, keep) != []
    ensures j < |s| && Among(s, keep) == [s[j]] + Among(s[j + 1..], keep)
  {
    hide Among;
    AmongAround(s, 0, keep);
    assert s[..0] == [];
    if s[0] in keep {
      j := 0;
    } else {
      var k := FirstAmong(s[1..], keep);
      j := k + 1;
      assert s[1..][k + 1..] == s[j + 1..];
    }
  }

  /** A walk that has visited the first `n` chunks on the list: those of the old list from the `m`-th on that are
      still chunks are ahead, and every other chunk of the old list is covered by one that was visited. */
  ghost predicate Walked(tiles: Tiles, free: seq<nat>, n: nat, tiles0: Tiles, hs0: Headers, free0: seq<nat>, m: nat,
                         usage: nat, h: nat)
    requires Tiling(tiles0, usage, h) && HaveHeaders(tiles0, hs0)
  {
    && n <= |free| && m <= |free0| && free[n..] == Among(free0[m..], tiles.Keys)
    && forall a :: a in free0 && a in tiles0 ==>
         a in free[n..] || Covered(tiles, h, free[..n], a, FreeEnd(tiles0, hs0, usage, a, h))
  }

  lemma WalkStarts(tiles: Tiles, hs: Headers, free: seq<nat>, usage: nat, h: nat)
    requires Tiling(tiles, usage, h) && HaveHeaders(tiles, hs) && ListOfTiles(free, tiles)
    ensures Walked(tiles, free, 0, tiles, hs, free, 0, usage, h)
  {
    hide Tiling, FreeEnd, Among;
    assert free[0..] == free;
    AllAmong(free, tiles.Keys);
  }

  /** One more chunk is visited. */
  lemma WalkGoesOn(tiles: Tiles, hs: Headers, free: seq<nat>, n: nat, tiles': Tiles, hs': Headers, free': seq<nat>,
                   tiles0: Tiles, hs0: Headers, free0: seq<nat>, m: nat, usage: nat, h: nat) returns (m': nat)
    requires SameFreeEnds(tiles, hs, tiles0, hs0, usage, h) && ListOfTiles(free, tiles)
    requires Walked(tiles, free, n, tiles0, hs0, free0, m, usage, h) && n < |free|
    requires forall i, j :: 0 <= i < j < |free| ==> free[i] != free[j]
    requires free[n] in tiles' && Coalesced(tiles', hs', tiles, hs, free[n], h)
    requires End(tiles', free[n], h) == FreeEnd(tiles, hs, usage, free[n], h) && free' == Among(free, tiles'.Keys)
    ensures m < m' && Walked(tiles', free', |Among(free[..n], tiles'.Keys)| + 1, tiles0, hs0, free0, m', usage, h)
  {
    hide Tiling, FreeEnd, Among, Coalesced, HaveHeaders, Covered;
    var c, k := free[n], |Among(free[..n], tiles'.Keys)|;
    var j := FirstAmong(free0[m..], tiles.Keys);
    m' := m + j + 1;
    assert free0[m..][j + 1..] == free0[m'..];
    assert free[n..][0] == c && free[n..][1..] == free[n + 1..];
    assert free[n + 1..] == Among(free0[m'..], tiles.Keys);
    CoalescedKeys(tiles', hs', tiles, hs, c, h);
    AmongTwice(free0[m'..], tiles.Keys, tiles'.Keys);
    AmongAround(free, n, tiles'.Keys);
    assert free'[k + 1..] == Among(free[n + 1..], tiles'.Keys);
    assert free'[..k + 1] == Among(free[..n], tiles'.Keys) + [c];
    forall a | a in free0 && a in tiles0
      ensures a in free'[k + 1..] || Covered(tiles', h, free'[..k + 1], a, FreeEnd(tiles0, hs0, usage, a, h))
    {
      if a in free[n + 1..] && a in tiles' {
        assert a in free'[k + 1..];
      } else {
        assert a in free[n..] ==> a == c || a in free[n + 1..];
        CoveredByVisit(tiles, hs, tiles', hs', usage, h, free[..n], c, a, FreeEnd(tiles0, hs0, usage, a, h));
      }
    }
  }

  lemma CoalescedKeys(tiles': Tiles, hs': Headers, tiles: Tiles, hs: Headers, a: nat, h: nat)
    requires a in tiles' && Coalesced(tiles', hs', tiles, hs, a, h)
    ensures tiles'.Keys <= tiles.Keys
  {
  }

  lemma WalkedWithin(tiles: Tiles, free: seq<nat>, n: nat, tiles0: Tiles, hs0: Headers, free0: seq<nat>, m: nat,
                     usage: nat, h: nat)
    requires Tiling(tiles0, usage, h) && HaveHeaders(tiles0, hs0)
    requires Walked(tiles, free, n, tiles0, hs0, free0, m, usage, h)
    ensures n <= |free| && m <= |free0|
  {
  }

  lemma CoveredByMore(tiles: Tiles, h: nat, list: seq<nat>, n: nat, k: nat, a: nat, e: nat)
    requires n <= k <= |list| && Covered(tiles, h, list[..n], a, e)
    ensures Covered(tiles, h, list[..k], a, e)
  {
    var b :| b in list[..n] && b in tiles && b <= a && e <= End(tiles, b, h);
    assert b in list[..k];
  }

  /** A walk that is over covers the first `k` chunks of the old list. */
  lemma WalkCovers(tiles: Tiles, free: seq<nat>, n: nat, tiles0: Tiles, hs0: Headers, free0: seq<nat>, m: nat,
                   usage: nat, h: nat, k: nat, a: nat)
    requires Tiling(tiles0, usage, h) && HaveHeaders(tiles0, hs0) && ListOfTiles(free0, tiles0)
    requires Walked(tiles, free, n, tiles0, hs0, free0, m, usage, h) && (n == |free| || k <= m)
    requires forall i, j :: 0 <= i < j < |free0| ==> free0[i] != free0[j]
    requires k <= |free0| && a in free0[..k]
    ensures a in tiles0 && Covered(tiles, h, free[..n], a, FreeEnd(tiles0, hs0, usage, a, h))
  {
    hide Tiling, FreeEnd, Among, Covered;
    assert a in free0;
    if n == |free| {
      assert free[n..] == [];
    }
  }

  /** `sizes` and `list` are the chunks and the free list after defragmentation: the list has kept its order, and
      each chunk in the old window lies, with all that was unused behind it, within one chunk in the new window. */
  ghost predicate Defragged(sizes: Tiles, list: seq<nat>, tiles: Tiles, hs: Headers, free: seq<nat>, usage: nat, h: nat)
  {
    && Tiling(tiles, usage, h) && HaveHeaders(tiles, hs) && list == Among(free, sizes.Keys)
    && forall a :: a in FirstOf(free) ==>
         a in tiles && Covered(sizes, h, FirstOf(list), a, FreeEnd(tiles, hs, usage, a, h))
  }

  // ---------------------------------------------------------------------------------------------
  // Choosing a chunk

  const CHUNK_SEARCH_MAX: nat := 16

  /** The part of a free list that a search looks at. */
  function FirstOf(list: seq<nat>): seq<nat> {
    if |list| <= CHUNK_SEARCH_MAX then list else list[..CHUNK_SEARCH_MAX]
  }

  ghost predicate NoneFits(window: seq<nat>, sizes: Tiles, size: nat) {
    forall a :: a in window ==> a in sizes && sizes[a] < size
  }

  /** Of the chunks in a search window the one at `a` is the smallest that is large enough, and the first of its
      size. */
  ghost predicate BestFit(window: seq<nat>, sizes: Tiles, size: nat, a: nat) {
    && a in sizes && size <= sizes[a]
    && exists i :: 0 <= i < |window| && window[i] == a &&
         forall j :: 0 <= j < |window| && window[j] in sizes && size <= sizes[window[j]] ==>
           if j < i then sizes[a] < sizes[window[j]] else sizes[a] <= sizes[window[j]]
  }

  /** A window with a large enough chunk is not without one. */
  lemma BestFitFits(window: seq<nat>, sizes: Tiles, size: nat, a: nat)
    requires BestFit(window, sizes, size, a)
    ensures a in window && a in sizes && size <= sizes[a] && !NoneFits(window, sizes, size)
  {
  }

  /** Some chunk in the window has room for `size` bytes, together with the unused chunks behind it. */
  ghost predicate RoomInWindow(tiles: Tiles, hs: Headers, free: seq<nat>, usage: nat, h: nat, size: nat)
    requires Tiling(tiles, usage, h) && HaveHeaders(tiles, hs)
  {
    exists a :: a in FirstOf(free) && a in tiles && a + h + size <= FreeEnd(tiles, hs, usage, a, h)
  }

  /** Defragmentation makes one chunk of it. */
  lemma RoomIsOneChunk(sizes: Tiles, list: seq<nat>, tiles: Tiles, hs: Headers, free: seq<nat>, usage: nat, h: nat,
                       size: nat)
    requires Defragged(sizes, list, tiles, hs, free, usage, h) && RoomInWindow(tiles, hs, free, usage, h, size)
    ensures !NoneFits(FirstOf(list), sizes, size)
  {
    hide Tiling, HaveHeaders, FreeEnd, Among, FirstOf;
    var a :| a in FirstOf(free) && a in tiles && a + h + size <= FreeEnd(tiles, hs, usage, a, h);
    var e := FreeEnd(tiles, hs, usage, a, h);
    var b :| b in FirstOf(list) && b in sizes && b <= a && e <= End(sizes, b, h);
  }

  lemma RoomForLess(tiles: Tiles, hs: Headers, free: seq<nat>, usage: nat, h: nat, more: nat, less: nat)
    requires Tiling(tiles, usage, h) && HaveHeaders(tiles, hs)
    requires RoomInWindow(tiles, hs, free, usage, h, more) && less <= more
    ensures RoomInWindow(tiles, hs, free, usage, h, less)
  {
    hide Tiling, HaveHeaders, FreeEnd, FirstOf;
    var a :| a in FirstOf(free) && a in tiles && a + h + more <= FreeEnd(tiles, hs, usage, a, h);
    assert a + h + less <= FreeEnd(tiles, hs, usage, a, h);
  }

  lemma RoomInFirst(tiles: Tiles, hs: Headers, free: seq<nat>, usage: nat, h: nat)
    requires Tiling(tiles, usage, h) && HaveHeaders(tiles, hs) && free != [] && free[0] in tiles
    ensures RoomInWindow(tiles, hs, free, usage, h, tiles[free[0]])
  {
    hide Tiling, HaveHeaders, FreeEnd;
    assert FirstOf(free)[0] == free[0];
  }

  // ---------------------------------------------------------------------------------------------
  // Stores into objects

  /** `data` has been stored into the object at `ptr`. */
  lemma StoredIntoObject(bytes: seq<byte>, bytes': seq<byte>, tiles: Tiles, hs: Headers, hs': Headers, free: seq<nat>,
                         head: Link, usage: nat, h: nat, ptr: nat, at: nat, data: seq<byte>)
    requires Tiling(tiles, usage, h) && usage <= |bytes| && Fits(bytes, tiles, h)
    requires SizesMatch(tiles, hs) && FreeMatches(free, tiles, hs, {})
    requires FreeList(free, hs, head) && ListOfTiles(free, tiles)
    requires ptr in ObjectsOf(bytes, tiles, hs, h) && at + |data| <= |ObjectsOf(bytes, tiles, hs, h)[ptr]|
    requires ptr + at + |data| <= |bytes| && bytes' == Patched(bytes, ptr + at, data)
    requires hs' == Overwritten(hs, ptr + at, ptr + at + |data|, h)
    ensures HaveHeaders(tiles, hs') && SizesMatch(tiles, hs') && FreeMatches(free, tiles, hs', {})
    ensures FreeList(free, hs', head) && |bytes'| == |bytes| && Fits(bytes', tiles, h)
    ensures var objects := ObjectsOf(bytes, tiles, hs, h);
            ObjectsOf(bytes', tiles, hs', h) == objects[ptr := Patched(objects[ptr], at, data)]
  {
    hide Tiling, ObjectsOf, FreeList, SizesMatch, ListOfTiles, FreeMatches, HaveHeaders,
         Patched, Overwritten, Fits, HeadersStay, Live;
    var c := ptr - h;
    assert Live(tiles, hs, c);
    LiveChunk(tiles, hs, c);
    SizeOfObject(bytes, tiles, hs, h, c);
    SizesAreHeaders(tiles, hs);
    PatchedLength(bytes, ptr + at, data);
    TilesFit(bytes', tiles, usage, h);
    TileContinued(tiles, usage, h, c);
    OverwrittenKeeps(tiles, usage, h, hs, c, ptr + at, ptr + at + |data|);
    SameHeadersSameLayout(tiles, hs, hs', free, head);
    PayloadStore(bytes, bytes', tiles, hs, hs', usage, h, c, at, data);
  }

  lemma SizesAreHeaders(tiles: Tiles, hs: Headers)
    requires SizesMatch(tiles, hs)
    ensures HaveHeaders(tiles, hs)
  {
  }

  lemma SameHeadersSameLayout(tiles: Tiles, hs: Headers, hs': Headers, free: seq<nat>, head: Link)
    requires HeadersStay(hs', hs, tiles) && SizesMatch(tiles, hs) && FreeMatches(free, tiles, hs, {})
    requires FreeList(free, hs, head) && ListOfTiles(free, tiles)
    ensures HaveHeaders(tiles, hs') && SizesMatch(tiles, hs') && FreeMatches(free, tiles, hs', {})
    ensures FreeList(free, hs', head)
  {
    hide FreeList;
    FreeListOfLinks(free, hs, hs', head);
  }
}
