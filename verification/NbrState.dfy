/** The state of os/net/nbr-table.c as values: which pool block holds the key of which neighbour, and
    what the per-neighbour bitmaps say about the tables. */
module NbrState {
  import opened ByteStrings
  import opened List

  type Address = seq<int>

  const MAX_NUM_TABLES: nat := 8

  // ---------------------------------------------------------------------------------------------
  // Bitmaps with one bit per table

  function Mask(t: nat): byte
    requires t < MAX_NUM_TABLES
  {
    1 << t
  }

  predicate Share(m: byte, n: byte) {
    m & n != 0
  }

  predicate Bit(map_: byte, t: nat)
    requires t < MAX_NUM_TABLES
  {
    Share(map_, Mask(t))
  }

  function SetBit(map_: byte, t: nat): byte
    requires t < MAX_NUM_TABLES
  {
    map_ | Mask(t)
  }

  function ClearBit(map_: byte, t: nat): byte
    requires t < MAX_NUM_TABLES
  {
    map_ & !Mask(t)
  }

  lemma MaskIs(t: nat)
    requires t < MAX_NUM_TABLES
    ensures Mask(t) == [0x01 as byte, 0x02, 0x04, 0x08, 0x10, 0x20, 0x40, 0x80][t]
  {
  }

  predicate SingleBit(m: byte) {
    m != 0 && m & (m - 1) == 0
  }

  lemma MasksDiffer(t: nat, u: nat)
    requires t < MAX_NUM_TABLES && u < MAX_NUM_TABLES
    ensures SingleBit(Mask(t)) && (Mask(t) == Mask(u) <==> t == u)
  {
    hide Mask;
    MaskIs(t);
    MaskIs(u);
  }

  lemma SetSingle(map_: byte, m: byte, n: byte)
    requires SingleBit(m) && SingleBit(n)
    ensures Share(map_ | m, n) <==> m == n || Share(map_, n)
  {
  }

  lemma ClearSingle(map_: byte, m: byte, n: byte)
    requires SingleBit(m) && SingleBit(n)
    ensures Share(map_ & !m, n) <==> m != n && Share(map_, n)
  {
  }

  lemma BitOfSet(map_: byte, t: nat, u: nat)
    requires t < MAX_NUM_TABLES && u < MAX_NUM_TABLES
    ensures Bit(SetBit(map_, t), u) <==> u == t || Bit(map_, u)
  {
    hide Mask, SingleBit, Share;
    MasksDiffer(t, u);
    MasksDiffer(u, t);
    SetSingle(map_, Mask(t), Mask(u));
  }

  lemma BitOfClear(map_: byte, t: nat, u: nat)
    requires t < MAX_NUM_TABLES && u < MAX_NUM_TABLES
    ensures Bit(ClearBit(map_, t), u) <==> u != t && Bit(map_, u)
  {
    hide Mask, SingleBit, Share;
    MasksDiffer(t, u);
    MasksDiffer(u, t);
    ClearSingle(map_, Mask(t), Mask(u));
  }

  lemma BitOfZero(u: nat)
    requires u < MAX_NUM_TABLES
    ensures !Bit(0, u)
  {
  }

  lemma ZeroHasNoBit(map_: byte)
    ensures map_ == 0 <==> forall t: nat :: t < MAX_NUM_TABLES ==> !Bit(map_, t)
  {
    if map_ != 0 {
      assert Bit(map_, 0) || Bit(map_, 1) || Bit(map_, 2) || Bit(map_, 3) ||
             Bit(map_, 4) || Bit(map_, 5) || Bit(map_, 6) || Bit(map_, 7);
    }
  }

  /** The number of bits set at or above position `t`. */
  function CountFrom(map_: byte, t: nat): nat
    requires t <= MAX_NUM_TABLES
    decreases MAX_NUM_TABLES - t
  {
    if t == MAX_NUM_TABLES then 0 else (if Bit(map_, t) then 1 else 0) + CountFrom(map_, t + 1)
  }

  lemma {:induction false} CountIsCardinality(map_: byte, t: nat)
    requires t <= MAX_NUM_TABLES
    ensures CountFrom(map_, t) == |set u: nat | t <= u < MAX_NUM_TABLES && Bit(map_, u)|
    decreases MAX_NUM_TABLES - t
  {
    var s := set u: nat | t <= u < MAX_NUM_TABLES && Bit(map_, u);
    if t < MAX_NUM_TABLES {
      CountIsCardinality(map_, t + 1);
      var s' := set u: nat | t + 1 <= u < MAX_NUM_TABLES && Bit(map_, u);
      if Bit(map_, t) {
        assert s == s' + {t};
      } else {
        assert s == s';
      }
    } else {
      assert s == {};
    }
  }

  /** The bitmap after `t` rounds of `used >>= 1`. */
  function Shifted(map_: byte, t: nat): byte {
    if t == 0 then map_ else Shifted(map_ >> 1, t - 1)
  }

  predicate LowBit(map_: byte) {
    map_ & 1 == 1
  }

  lemma BitMovesDown(map_: byte, t: nat)
    requires t < MAX_NUM_TABLES
    ensures if t == 0 then LowBit(map_) <==> Bit(map_, 0) else Bit(map_ >> 1, t - 1) <==> Bit(map_, t)
  {
    hide Mask;
    MaskIs(t);
    if t > 0 {
      MaskIs(t - 1);
    }
  }

  lemma {:induction false} ShiftedStep(map_: byte, t: nat)
    requires t < MAX_NUM_TABLES
    ensures LowBit(Shifted(map_, t)) <==> Bit(map_, t)
    ensures Shifted(map_, t) >> 1 == Shifted(map_, t + 1)
    decreases t
  {
    hide LowBit, Bit;
    BitMovesDown(map_, t);
    if t > 0 {
      ShiftedStep(map_ >> 1, t - 1);
    }
  }

  lemma ShiftedEnds(map_: byte)
    ensures Shifted(map_, 0) == map_ && Shifted(map_, MAX_NUM_TABLES) == 0
  {
    var a, b := map_ >> 1, map_ >> 1 >> 1;
    var c, d := b >> 1, b >> 1 >> 1;
    assert Shifted(map_, 8) == Shifted(a, 7) == Shifted(b, 6) == Shifted(c, 5) == Shifted(d, 4);
    assert Shifted(d, 4) == Shifted(d >> 1, 3) == Shifted(d >> 1 >> 1, 2) == Shifted(d >> 1 >> 1 >> 1, 1);
    assert Shifted(d >> 1 >> 1 >> 1, 1) == Shifted(d >> 1 >> 1 >> 1 >> 1, 0);
  }

  lemma {:induction false} NothingLeft(map_: byte, t: nat)
    requires t <= MAX_NUM_TABLES && Shifted(map_, t) == 0
    ensures CountFrom(map_, t) == 0
    decreases MAX_NUM_TABLES - t
  {
    if t < MAX_NUM_TABLES {
      ShiftedStep(map_, t);
      NothingLeft(map_, t + 1);
    }
  }

  // ---------------------------------------------------------------------------------------------
  // Keys and sets of tables

  /** The listed keys are the used blocks, and `slotOf` finds each by its address, which no other has. */
  ghost predicate KeysMatch(items: seq<nat>, flags: seq<bool>, addrs: seq<Address>, slotOf: map<Address, nat>) {
    && |flags| == |addrs|
    && (forall k: nat :: k in items <==> k < |flags| && flags[k])
    && (forall k :: k in items ==> k < |addrs| && addrs[k] in slotOf && slotOf[addrs[k]] == k)
    && (forall a :: a in slotOf ==> slotOf[a] in items && slotOf[a] < |addrs| && addrs[slotOf[a]] == a)
  }

  /** A bitmap per block says which of the sets, one for each table, the block's neighbour is in; the
      blocks that hold no neighbour have no bit set. */
  ghost predicate MapMatches(bits: seq<byte>, sets: seq<set<Address>>, items: seq<nat>, slotOf: map<Address, nat>) {
    && |sets| == MAX_NUM_TABLES
    && (forall t, a :: 0 <= t < MAX_NUM_TABLES && a in sets[t] ==> a in slotOf)
    && (forall a :: a in slotOf ==> slotOf[a] < |bits|)
    && (forall t: nat, a :: t < MAX_NUM_TABLES && a in slotOf ==> (a in sets[t] <==> Bit(bits[slotOf[a]], t)))
    && (forall k :: 0 <= k < |bits| && k !in items ==> bits[k] == 0)
  }

  function WithoutAddress(sets: seq<set<Address>>, a: Address): (r: seq<set<Address>>)
    ensures |r| == |sets|
    ensures forall t :: 0 <= t < |sets| ==> r[t] == sets[t] - {a}
  {
    seq(|sets|, t requires 0 <= t < |sets| => sets[t] - {a})
  }

  lemma NothingKnown(flags: seq<bool>, addrs: seq<Address>, bits: seq<byte>, sets: seq<set<Address>>)
    requires |flags| == |addrs| && (forall k :: 0 <= k < |flags| ==> !flags[k])
    requires (forall k :: 0 <= k < |bits| ==> bits[k] == 0) && sets == seq(MAX_NUM_TABLES, _ => {})
    ensures KeysMatch([], flags, addrs, map[]) && MapMatches(bits, sets, [], map[])
  {
  }

  lemma ForgetKey(items: seq<nat>, flags: seq<bool>, addrs: seq<Address>, slotOf: map<Address, nat>, k: nat)
    requires KeysMatch(items, flags, addrs, slotOf) && k in items
    ensures k < |flags| && KeysMatch(Without(items, k), flags[k := false], addrs, slotOf - {addrs[k]})
  {
  }

  lemma ForgetInMap(bits: seq<byte>, sets: seq<set<Address>>, items: seq<nat>, slotOf: map<Address, nat>,
                    flags: seq<bool>, addrs: seq<Address>, k: nat)
    requires KeysMatch(items, flags, addrs, slotOf) && k in items && |bits| == |addrs|
    requires MapMatches(bits, sets, items, slotOf)
    ensures MapMatches(bits[k := 0], WithoutAddress(sets, addrs[k]), Without(items, k), slotOf - {addrs[k]})
  {
  }

  lemma LearnKey(items: seq<nat>, flags: seq<bool>, addrs: seq<Address>, slotOf: map<Address, nat>, k: nat, a: Address)
    requires KeysMatch(items, flags, addrs, slotOf) && k < |flags| && !flags[k] && a !in slotOf
    ensures k !in items && KeysMatch(items + [k], flags[k := true], addrs[k := a], slotOf[a := k])
  {
  }

  lemma LearnInMap(bits: seq<byte>, sets: seq<set<Address>>, items: seq<nat>, slotOf: map<Address, nat>, k: nat,
                   a: Address)
    requires MapMatches(bits, sets, items, slotOf) && k < |bits| && k !in items && a !in slotOf
    ensures MapMatches(bits, sets, items + [k], slotOf[a := k])
  {
    forall t: nat | t < MAX_NUM_TABLES
      ensures !Bit(0, t)
    {
      BitOfZero(t);
    }
  }

  lemma SetInMap(bits: seq<byte>, sets: seq<set<Address>>, items: seq<nat>, slotOf: map<Address, nat>,
                 flags: seq<bool>, addrs: seq<Address>, a: Address, t: nat)
    requires KeysMatch(items, flags, addrs, slotOf) && MapMatches(bits, sets, items, slotOf)
    requires a in slotOf && t < MAX_NUM_TABLES
    ensures MapMatches(bits[slotOf[a] := SetBit(bits[slotOf[a]], t)], sets[t := sets[t] + {a}], items, slotOf)
  {
    hide Bit, SetBit;
    forall u: nat | u < MAX_NUM_TABLES
      ensures Bit(SetBit(bits[slotOf[a]], t), u) <==> u == t || Bit(bits[slotOf[a]], u)
    {
      BitOfSet(bits[slotOf[a]], t, u);
    }
  }

  lemma ClearInMap(bits: seq<byte>, sets: seq<set<Address>>, items: seq<nat>, slotOf: map<Address, nat>,
                   flags: seq<bool>, addrs: seq<Address>, a: Address, t: nat)
    requires KeysMatch(items, flags, addrs, slotOf) && MapMatches(bits, sets, items, slotOf)
    requires a in slotOf && t < MAX_NUM_TABLES
    ensures MapMatches(bits[slotOf[a] := ClearBit(bits[slotOf[a]], t)], sets[t := sets[t] - {a}], items, slotOf)
  {
    hide Bit, ClearBit;
    forall u: nat | u < MAX_NUM_TABLES
      ensures Bit(ClearBit(bits[slotOf[a]], t), u) <==> u != t && Bit(bits[slotOf[a]], u)
    {
      BitOfClear(bits[slotOf[a]], t, u);
    }
  }

  /** The tables that a neighbour is in. */
  ghost function TablesOf(sets: seq<set<Address>>, a: Address): set<nat>
    requires |sets| == MAX_NUM_TABLES
  {
    set t: nat | t < MAX_NUM_TABLES && a in sets[t]
  }

  lemma BitmapCounts(bits: seq<byte>, sets: seq<set<Address>>, items: seq<nat>, slotOf: map<Address, nat>, a: Address)
    requires MapMatches(bits, sets, items, slotOf) && a in slotOf
    ensures CountFrom(bits[slotOf[a]], 0) == |TablesOf(sets, a)|
    ensures bits[slotOf[a]] == 0 <==> TablesOf(sets, a) == {}
  {
    var map_ := bits[slotOf[a]];
    CountIsCardinality(map_, 0);
    assert TablesOf(sets, a) == set u: nat | 0 <= u < MAX_NUM_TABLES && Bit(map_, u);
    ZeroHasNoBit(map_);
    assert TablesOf(sets, a) == {} <==> forall t: nat :: t < MAX_NUM_TABLES ==> !Bit(map_, t) by {
      assert forall t: nat :: t < MAX_NUM_TABLES ==> (t in TablesOf(sets, a) <==> Bit(map_, t));
    }
  }

  lemma UsersAreKnown(bits: seq<byte>, sets: seq<set<Address>>, items: seq<nat>, slotOf: map<Address, nat>)
    requires MapMatches(bits, sets, items, slotOf)
    ensures forall t, a :: 0 <= t < MAX_NUM_TABLES && a in sets[t] ==> a in slotOf
    ensures forall a :: a in slotOf ==> slotOf[a] < |bits|
  {
  }

  lemma NothingListed(flags: seq<bool>, addrs: seq<Address>, bits: seq<byte>, sets: seq<set<Address>>,
                      slotOf: map<Address, nat>)
    requires KeysMatch([], flags, addrs, slotOf) && MapMatches(bits, sets, [], slotOf)
    ensures slotOf == map[] && sets == seq(MAX_NUM_TABLES, _ => {})
    ensures forall k :: 0 <= k < |flags| ==> !flags[k]
  {
    forall t | 0 <= t < MAX_NUM_TABLES
      ensures sets[t] == {}
    {
      assert forall a :: a in sets[t] ==> a in slotOf && slotOf[a] in [];
    }
  }

  lemma StrangerIsUnused(bits: seq<byte>, sets: seq<set<Address>>, items: seq<nat>, slotOf: map<Address, nat>,
                         a: Address)
    requires MapMatches(bits, sets, items, slotOf) && a !in slotOf
    ensures TablesOf(sets, a) == {}
  {
  }

  // ---------------------------------------------------------------------------------------------
  // Which neighbour has to go

  /** Whether some table has locked the neighbour. */
  ghost predicate IsLocked(locks: seq<set<Address>>, a: Address)
    requires |locks| == MAX_NUM_TABLES
  {
    TablesOf(locks, a) != {}
  }

  /** The `i`-th key is the one that the default policy gives up among the first `n`: not locked by
      any table, in use by the fewest tables, and before all others of which that is true. */
  ghost predicate IsWorst(items: seq<nat>, addrs: seq<Address>, users: seq<set<Address>>, locks: seq<set<Address>>,
                          n: nat, i: nat)
    requires |users| == |locks| == MAX_NUM_TABLES
    requires n <= |items| && forall j :: 0 <= j < n ==> items[j] < |addrs|
  {
    && i < n
    && !IsLocked(locks, addrs[items[i]])
    && forall j {:trigger items[j]} :: 0 <= j < n && !IsLocked(locks, addrs[items[j]]) ==>
         && |TablesOf(users, addrs[items[i]])| <= |TablesOf(users, addrs[items[j]])|
         && (j < i ==> |TablesOf(users, addrs[items[i]])| < |TablesOf(users, addrs[items[j]])|)
  }

  /** The search of the policy after `n` keys. */
  ghost predicate Searched(items: seq<nat>, addrs: seq<Address>, users: seq<set<Address>>, locks: seq<set<Address>>,
                           n: nat, found: bool, worst: Address, at: nat)
    requires |users| == |locks| == MAX_NUM_TABLES && forall j :: 0 <= j < |items| ==> items[j] < |addrs|
  {
    && n <= |items|
    && (found ==> at < n && worst == addrs[items[at]] && IsWorst(items, addrs, users, locks, n, at))
    && (!found ==> forall j :: 0 <= j < n ==> IsLocked(locks, addrs[items[j]]))
  }

  lemma SearchStarts(items: seq<nat>, addrs: seq<Address>, users: seq<set<Address>>, locks: seq<set<Address>>)
    requires |users| == |locks| == MAX_NUM_TABLES && forall j :: 0 <= j < |items| ==> items[j] < |addrs|
    ensures Searched(items, addrs, users, locks, 0, false, [], 0)
  {
  }

  lemma SearchGoesOn(items: seq<nat>, addrs: seq<Address>, users: seq<set<Address>>, locks: seq<set<Address>>,
                     n: nat, found: bool, worst: Address, at: nat)
    requires |users| == |locks| == MAX_NUM_TABLES && forall j :: 0 <= j < |items| ==> items[j] < |addrs|
    requires Searched(items, addrs, users, locks, n, found, worst, at) && n < |items|
    ensures var a := addrs[items[n]];
            if IsLocked(locks, a) then Searched(items, addrs, users, locks, n + 1, found, worst, at)
            else if found && |TablesOf(users, worst)| <= |TablesOf(users, a)|
              then Searched(items, addrs, users, locks, n + 1, true, worst, at)
            else Searched(items, addrs, users, locks, n + 1, true, a, n)
  {
    hide TablesOf, IsLocked;
  }

  lemma SearchEnds(items: seq<nat>, addrs: seq<Address>, users: seq<set<Address>>, locks: seq<set<Address>>,
                   found: bool, worst: Address, at: nat)
    requires |users| == |locks| == MAX_NUM_TABLES && forall j :: 0 <= j < |items| ==> items[j] < |addrs|
    requires Searched(items, addrs, users, locks, |items|, found, worst, at)
    ensures found ==> at < |items| && worst == addrs[items[at]]
    ensures found ==> IsWorst(items, addrs, users, locks, |items|, at)
    ensures !found ==> forall i :: 0 <= i < |items| ==> IsLocked(locks, addrs[items[i]])
  {
  }

  lemma WorstIsUnlocked(items: seq<nat>, addrs: seq<Address>, users: seq<set<Address>>, locks: seq<set<Address>>,
                        n: nat, i: nat)
    requires |users| == |locks| == MAX_NUM_TABLES
    requires n <= |items| && forall j :: 0 <= j < n ==> items[j] < |addrs|
    requires IsWorst(items, addrs, users, locks, n, i)
    ensures i < n && !IsLocked(locks, addrs[items[i]])
  {
  }

  /** A table: the items of the addresses that use it. */
  ghost function TableOf(users: set<Address>, slotOf: map<Address, nat>, row: seq<seq<int>>): map<Address, seq<int>>
    requires forall a :: a in users ==> a in slotOf && slotOf[a] < |row|
  {
    map a | a in users :: row[slotOf[a]]
  }

  /** Giving a block to a new neighbour changes no table, but for the one whose block it was. */
  lemma ReuseKeepsTable(users: set<Address>, slotOf: map<Address, nat>, row: seq<seq<int>>, gone: set<Address>,
                        a: Address, k: nat)
    requires forall x :: x in users ==> x in slotOf && slotOf[x] < |row|
    requires a !in slotOf
    ensures var slotOf' := (slotOf - gone)[a := k];
      && (forall x :: x in users - gone ==> x in slotOf' && slotOf'[x] < |row|)
      && TableOf(users - gone, slotOf', row) == TableOf(users, slotOf, row) - gone
    ensures gone == {} ==> users - gone == users && slotOf - gone == slotOf
    ensures gone == {} ==> TableOf(users, slotOf, row) - gone == TableOf(users, slotOf, row)
  {
  }

  // ---------------------------------------------------------------------------------------------
  // Callbacks

  /** The callbacks that go out for the first `n` tables when a neighbour is removed. */
  ghost function Notices(callbacks: seq<bool>, numTables: nat, users: seq<set<Address>>, a: Address, k: nat,
                         n: nat): seq<(nat, nat)>
    requires n <= |callbacks| == |users| == MAX_NUM_TABLES
  {
    if n == 0 then []
    else Notices(callbacks, numTables, users, a, k, n - 1)
         + if n - 1 < numTables && callbacks[n - 1] && a in users[n - 1] then [(n - 1, k)] else []
  }

  /** The callbacks for all listed keys, one after the other. */
  ghost function AllNotices(callbacks: seq<bool>, numTables: nat, users: seq<set<Address>>, addrs: seq<Address>,
                            items: seq<nat>): seq<(nat, nat)>
    requires |callbacks| == |users| == MAX_NUM_TABLES && forall i :: 0 <= i < |items| ==> items[i] < |addrs|
  {
    if items == [] then []
    else Notices(callbacks, numTables, users, addrs[items[0]], items[0], MAX_NUM_TABLES)
         + AllNotices(callbacks, numTables, users, addrs, items[1..])
  }

  /** Exactly the registered tables that have a callback and use the neighbour are called, in order, each once. */
  ghost predicate UsersTold(told: seq<(nat, nat)>, callbacks: seq<bool>, numTables: nat, users: seq<set<Address>>,
                            a: Address, k: nat)
    requires |callbacks| == |users| == MAX_NUM_TABLES
  {
    && (forall t: nat, x: nat :: (t, x) in told <==>
          x == k && t < MAX_NUM_TABLES && t < numTables && callbacks[t] && a in users[t])
    && (forall i, j :: 0 <= i < j < |told| ==> told[i].0 < told[j].0)
  }

  /** Those calls have come after the calls made before. */
  ghost predicate Told(calls: seq<(nat, nat)>, before: seq<(nat, nat)>, callbacks: seq<bool>, numTables: nat,
                       users: seq<set<Address>>, a: Address, k: nat)
    requires |callbacks| == |users| == MAX_NUM_TABLES
  {
    before <= calls && UsersTold(calls[|before|..], callbacks, numTables, users, a, k)
  }

  lemma {:induction false} NoticesAre(callbacks: seq<bool>, numTables: nat, users: seq<set<Address>>, a: Address,
                                      k: nat, n: nat)
    requires n <= |callbacks| == |users| == MAX_NUM_TABLES
    ensures var told := Notices(callbacks, numTables, users, a, k, n);
      && (forall t: nat, x: nat :: (t, x) in told <==>
            x == k && t < n && t < numTables && callbacks[t] && a in users[t])
      && (forall i, j :: 0 <= i < j < |told| ==> told[i].0 < told[j].0)
  {
    hide Notices;
    NoticesInOrder(callbacks, numTables, users, a, k, n);
    if n > 0 {
      NoticesAre(callbacks, numTables, users, a, k, n - 1);
      var wanted := n - 1 < numTables && callbacks[n - 1] && a in users[n - 1];
      OneMoreNotice(Notices(callbacks, numTables, users, a, k, n - 1), n - 1, k, wanted);
    }
  }

  /** Table after table. */
  lemma NoticesInOrder(callbacks: seq<bool>, numTables: nat, users: seq<set<Address>>, a: Address, k: nat, n: nat)
    requires n <= |callbacks| == |users| == MAX_NUM_TABLES
    ensures n == 0 ==> Notices(callbacks, numTables, users, a, k, n) == []
    ensures n > 0 ==>
      Notices(callbacks, numTables, users, a, k, n) ==
      Notices(callbacks, numTables, users, a, k, n - 1) +
      if n - 1 < numTables && callbacks[n - 1] && a in users[n - 1] then [(n - 1, k)] else []
  {
  }

  lemma OneMoreNotice(before: seq<(nat, nat)>, n: nat, k: nat, wanted: bool)
    requires forall t: nat, x: nat :: (t, x) in before ==> t < n
    requires forall i, j :: 0 <= i < j < |before| ==> before[i].0 < before[j].0
    ensures var told := before + if wanted then [(n, k)] else [];
      && (forall t: nat, x: nat :: (t, x) in told <==> (t, x) in before || (wanted && t == n && x == k))
      && (forall i, j :: 0 <= i < j < |told| ==> told[i].0 < told[j].0)
  {
    forall i | 0 <= i < |before|
      ensures before[i].0 < n
    {
      assert (before[i].0, before[i].1) in before;
    }
  }

  lemma NoticesAreTold(calls: seq<(nat, nat)>, before: seq<(nat, nat)>, callbacks: seq<bool>, numTables: nat,
                       users: seq<set<Address>>, a: Address, k: nat)
    requires |callbacks| == |users| == MAX_NUM_TABLES
    requires calls == before + Notices(callbacks, numTables, users, a, k, MAX_NUM_TABLES)
    ensures Told(calls, before, callbacks, numTables, users, a, k)
  {
    hide Notices;
    NoticesAre(callbacks, numTables, users, a, k, MAX_NUM_TABLES);
    assert calls[|before|..] == Notices(callbacks, numTables, users, a, k, MAX_NUM_TABLES);
  }

  ghost predicate Precedes(items: seq<nat>, x: nat, y: nat) {
    exists i, j :: 0 <= i < j < |items| && items[i] == x && items[j] == y
  }

  /** For every listed key exactly the registered tables that have a callback and use the neighbour are called: key
      by key in the order of the list, and for one key in the order of the tables, each once. */
  ghost predicate AllTold(told: seq<(nat, nat)>, callbacks: seq<bool>, numTables: nat, users: seq<set<Address>>,
                          addrs: seq<Address>, items: seq<nat>)
    requires |callbacks| == |users| == MAX_NUM_TABLES && forall i :: 0 <= i < |items| ==> items[i] < |addrs|
  {
    && (forall t: nat, x: nat :: (t, x) in told <==>
          x in items && x < |addrs| && t < MAX_NUM_TABLES && t < numTables && callbacks[t] && addrs[x] in users[t])
    && (forall i, j :: 0 <= i < j < |told| ==>
          if told[i].1 == told[j].1 then told[i].0 < told[j].0 else Precedes(items, told[i].1, told[j].1))
  }

  lemma {:induction false} AllNoticesAre(callbacks: seq<bool>, numTables: nat, users: seq<set<Address>>,
                                         addrs: seq<Address>, items: seq<nat>)
    requires |callbacks| == |users| == MAX_NUM_TABLES && forall i :: 0 <= i < |items| ==> items[i] < |addrs|
    requires Distinct(items)
    ensures AllTold(AllNotices(callbacks, numTables, users, addrs, items), callbacks, numTables, users, addrs, items)
    decreases |items|
  {
    hide Notices;
    if items != [] {
      var k, rest := items[0], items[1..];
      var first := Notices(callbacks, numTables, users, addrs[k], k, MAX_NUM_TABLES);
      var others := AllNotices(callbacks, numTables, users, addrs, rest);
      NoticesAre(callbacks, numTables, users, addrs[k], k, MAX_NUM_TABLES);
      AllNoticesAre(callbacks, numTables, users, addrs, rest);
      ToldJoin(first, others, k, items);
    }
  }

  /** The order of the calls for the first key and of those for the others. */
  lemma ToldJoin(first: seq<(nat, nat)>, others: seq<(nat, nat)>, k: nat, items: seq<nat>)
    requires items != [] && k == items[0] && Distinct(items)
    requires forall c :: c in first ==> c.1 == k
    requires forall c :: c in others ==> c.1 in items[1..]
    requires forall i, j :: 0 <= i < j < |first| ==> first[i].0 < first[j].0
    requires forall i, j :: 0 <= i < j < |others| ==>
      if others[i].1 == others[j].1 then others[i].0 < others[j].0
      else Precedes(items[1..], others[i].1, others[j].1)
    ensures var told := first + others; forall i, j :: 0 <= i < j < |told| ==>
      if told[i].1 == told[j].1 then told[i].0 < told[j].0 else Precedes(items, told[i].1, told[j].1)
  {
    hide Precedes;
    var told := first + others;
    forall i, j | 0 <= i < j < |told|
      ensures if told[i].1 == told[j].1 then told[i].0 < told[j].0 else Precedes(items, told[i].1, told[j].1)
    {
      if j < |first| {
        assert told[i] in first && told[j] in first;
      } else {
        var y := told[j].1;
        assert told[j] == others[j - |first|];
        assert told[j] in others;
        if i < |first| {
          assert told[i] in first;
          FirstPrecedes(items, y);
        } else if told[i].1 != y {
          assert told[i] == others[i - |first|];
          RestPrecedes(items, told[i].1, y);
        }
      }
    }
  }

  lemma FirstPrecedes(items: seq<nat>, y: nat)
    requires items != [] && y in items[1..] && Distinct(items)
    ensures y != items[0] && Precedes(items, items[0], y)
  {
    var j :| 0 <= j < |items[1..]| && items[1..][j] == y;
    assert items[j + 1] == y;
  }

  lemma RestPrecedes(items: seq<nat>, x: nat, y: nat)
    requires items != [] && Precedes(items[1..], x, y)
    ensures Precedes(items, x, y)
  {
    var i, j :| 0 <= i < j < |items[1..]| && items[1..][i] == x && items[1..][j] == y;
    assert items[i + 1] == x && items[j + 1] == y;
  }

  lemma {:induction false} OthersAreNoticed(callbacks: seq<bool>, numTables: nat, users: seq<set<Address>>, a: Address,
                                            b: Address, k: nat, n: nat)
    requires n <= |callbacks| == |users| == MAX_NUM_TABLES && a != b
    ensures Notices(callbacks, numTables, WithoutAddress(users, a), b, k, n) ==
            Notices(callbacks, numTables, users, b, k, n)
  {
    hide WithoutAddress;
    if n > 0 {
      OthersAreNoticed(callbacks, numTables, users, a, b, k, n - 1);
    }
  }

  lemma {:induction false} AllOthersAreNoticed(callbacks: seq<bool>, numTables: nat, users: seq<set<Address>>,
                                               addrs: seq<Address>, items: seq<nat>, a: Address)
    requires |callbacks| == |users| == MAX_NUM_TABLES
    requires forall i :: 0 <= i < |items| ==> items[i] < |addrs| && addrs[items[i]] != a
    ensures AllNotices(callbacks, numTables, WithoutAddress(users, a), addrs, items) ==
            AllNotices(callbacks, numTables, users, addrs, items)
    decreases |items|
  {
    hide WithoutAddress, Notices;
    if items != [] {
      OthersAreNoticed(callbacks, numTables, users, a, addrs[items[0]], items[0], MAX_NUM_TABLES);
      AllOthersAreNoticed(callbacks, numTables, users, addrs, items[1..], a);
    }
  }

  // ---------------------------------------------------------------------------------------------
  // Iteration

  /** The listed keys whose neighbours use a table, in list order. */
  function Using(items: seq<nat>, addrs: seq<Address>, users: set<Address>): (r: seq<nat>)
    requires forall i :: 0 <= i < |items| ==> items[i] < |addrs|
    ensures forall k :: k in r <==> k in items && k < |addrs| && addrs[k] in users
    ensures Distinct(items) ==> Distinct(r)
  {
    if items == [] then []
    else
      var n := |items| - 1;
      var before := Using(items[..n], addrs, users);
      assert items == items[..n] + [items[n]];
      if addrs[items[n]] in users then before + [items[n]] else before
  }

  /** The position of the first key from `from` on whose neighbour uses a table, or the end of the list. */
  function NextUser(items: seq<nat>, addrs: seq<Address>, users: set<Address>, from: nat): (j: nat)
    requires from <= |items| && forall m :: 0 <= m < |items| ==> items[m] < |addrs|
    ensures from <= j <= |items|
    ensures forall m :: from <= m < j ==> addrs[items[m]] !in users
    ensures j < |items| ==> addrs[items[j]] in users
    decreases |items| - from
  {
    if from == |items| || addrs[items[from]] in users then from else NextUser(items, addrs, users, from + 1)
  }

  lemma NextUserIs(items: seq<nat>, addrs: seq<Address>, users: set<Address>, from: nat, j: nat)
    requires from <= j <= |items| && forall m :: 0 <= m < |items| ==> items[m] < |addrs|
    requires forall m :: from <= m < j ==> addrs[items[m]] !in users
    requires j < |items| ==> addrs[items[j]] in users
    ensures NextUser(items, addrs, users, from) == j
  {
  }

  lemma {:induction false} UsingSkips(items: seq<nat>, addrs: seq<Address>, users: set<Address>, i: nat, j: nat)
    requires i <= j <= |items| && forall m :: 0 <= m < |items| ==> items[m] < |addrs|
    requires forall m :: i <= m < j ==> addrs[items[m]] !in users
    ensures Using(items[..j], addrs, users) == Using(items[..i], addrs, users)
    decreases j
  {
    if i < j {
      assert items[..j][..j - 1] == items[..j - 1];
      UsingSkips(items, addrs, users, i, j - 1);
    }
  }

  lemma UsingTakes(items: seq<nat>, addrs: seq<Address>, users: set<Address>, j: nat)
    requires j < |items| && forall m :: 0 <= m < |items| ==> items[m] < |addrs|
    requires addrs[items[j]] in users
    ensures Using(items[..j + 1], addrs, users) == Using(items[..j], addrs, users) + [items[j]]
  {
    assert items[..j + 1][..j] == items[..j];
  }

  /** A loop over the users of a table, at the `j`-th key. */
  ghost predicate Visited(items: seq<nat>, addrs: seq<Address>, users: set<Address>, j: nat, slots: seq<nat>)
    requires forall m :: 0 <= m < |items| ==> items[m] < |addrs|
  {
    && j <= |items| && slots == Using(items[..j], addrs, users)
    && (j < |items| ==> addrs[items[j]] in users)
  }

  lemma VisitStarts(items: seq<nat>, addrs: seq<Address>, users: set<Address>)
    requires forall m :: 0 <= m < |items| ==> items[m] < |addrs|
    ensures Visited(items, addrs, users, NextUser(items, addrs, users, 0), [])
  {
    hide Using, NextUser;
    var j := NextUser(items, addrs, users, 0);
    assert items[..0] == [];
    UsingSkips(items, addrs, users, 0, j);
    UsingNothing(addrs, users);
  }

  lemma VisitGoesOn(items: seq<nat>, addrs: seq<Address>, users: set<Address>, j: nat, slots: seq<nat>)
    requires forall m :: 0 <= m < |items| ==> items[m] < |addrs|
    requires Visited(items, addrs, users, j, slots) && j < |items|
    ensures Visited(items, addrs, users, NextUser(items, addrs, users, j + 1), slots + [items[j]])
  {
    hide Using, NextUser;
    UsingTakes(items, addrs, users, j);
    UsingSkips(items, addrs, users, j + 1, NextUser(items, addrs, users, j + 1));
  }

  lemma VisitEnds(items: seq<nat>, addrs: seq<Address>, users: set<Address>, slots: seq<nat>)
    requires forall m :: 0 <= m < |items| ==> items[m] < |addrs|
    requires Visited(items, addrs, users, |items|, slots)
    ensures slots == Using(items, addrs, users)
  {
    hide Using;
    assert items[..|items|] == items;
  }

  lemma UsingNothing(addrs: seq<Address>, users: set<Address>)
    ensures Using([], addrs, users) == []
  {
  }
}
