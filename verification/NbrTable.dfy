/** The neighbour tables of os/net/nbr-table.c: up to eight tables over one pool of keys.  A key, and
    the item that each table keeps for its neighbour, are named by their index in the pool. */
module NbrTable {
  import opened Common
  import opened List
  import opened Memb
  import opened NbrState
  import opened ByteStrings

  type Content = seq<int>

  const NO_SLOT: int := -1

  class Tables {
    const keys: KeyList
    const pool: Pool
    const lladdr: array<Address>
    const usedMap: array<byte>
    const lockedMap: array<byte>
    const data: array2<Content>      // data[t, k]: what table t keeps for the neighbour of key k
    const itemSize: seq<nat>
    const linkaddrNull: Address
    var numTables: nat
    var callbacks: seq<bool>         // which tables want to know about removed items
    var calls: seq<(nat, nat)>       // the callbacks made so far: table and item
    ghost var slotOf: map<Address, nat>
    ghost var users: seq<set<Address>>
    ghost var locks: seq<set<Address>>

    ghost predicate Shape()
      reads this, keys
    {
      && lladdr.Length == usedMap.Length == lockedMap.Length == pool.used.Length == keys.next.Length == data.Length1
      && data.Length0 == |itemSize| == |callbacks| == MAX_NUM_TABLES
      && |users| == |locks| == MAX_NUM_TABLES
      && numTables <= MAX_NUM_TABLES
      && usedMap != lockedMap
      && keys.next as object !in
         {pool.used as object, lladdr as object, usedMap as object, lockedMap as object, data as object}
      && pool.used as object !in {lladdr as object, usedMap as object, lockedMap as object, data as object}
      && lladdr as object !in {usedMap as object, lockedMap as object, data as object}
      && data as object !in {usedMap as object, lockedMap as object}
    }

    /** The invariant, for a pool in which the given blocks are in use. */
    ghost predicate ValidFor(flags: seq<bool>)
      reads this, keys, keys.next, lladdr, usedMap, lockedMap
    {
      && Shape()
      && keys.Valid()
      && KeysMatch(keys.items, flags, lladdr[..], slotOf)
      && MapMatches(usedMap[..], users, keys.items, slotOf)
      && MapMatches(lockedMap[..], locks, keys.items, slotOf)
    }

    ghost predicate Valid()
      reads this, keys, keys.next, pool.used, lladdr, usedMap, lockedMap
    {
      ValidFor(pool.used[..])
    }

    /** A table as its users see it: a map from the addresses of its neighbours to items. */
    ghost function Table(t: nat): map<Address, Content>
      reads this, keys, lladdr, usedMap, lockedMap, data
      requires Shape() && t < MAX_NUM_TABLES
      requires forall a :: a in users[t] ==> a in slotOf && slotOf[a] < data.Length1
    {
      TableOf(users[t], slotOf, Row(t))
    }

    ghost function Row(t: nat): (row: seq<Content>)
      reads data
      requires t < data.Length0
      ensures |row| == data.Length1 && forall k :: 0 <= k < |row| ==> row[k] == data[t, k]
    {
      seq(data.Length1, k requires 0 <= k < data.Length1 reads data => data[t, k])
    }

    /** An item with all bytes zero. */
    function Zeroed(t: nat): (item: Content)
      requires t < |itemSize|
      ensures |item| == itemSize[t] && forall i :: 0 <= i < |item| ==> item[i] == 0
    {
      seq(itemSize[t], _ => 0)
    }

    constructor (size: nat, itemSize: seq<nat>, linkaddrNull: Address)
      requires |itemSize| == MAX_NUM_TABLES
      ensures Valid() && numTables == 0 && keys.items == [] && slotOf == map[]
      ensures forall t: nat :: t < MAX_NUM_TABLES ==> Table(t) == map[]
      ensures this.itemSize == itemSize && this.linkaddrNull == linkaddrNull
    {
      keys := new KeyList(size);
      pool := new Pool(size);
      lladdr := new Address[size](_ => []);
      usedMap := new byte[size](_ => 0);
      lockedMap := new byte[size](_ => 0);
      data := new Content[MAX_NUM_TABLES, size]((_, _) => []);
      this.itemSize, this.linkaddrNull := itemSize, linkaddrNull;
      numTables, calls := 0, [];
      callbacks := seq(MAX_NUM_TABLES, _ => false);
      slotOf := map[];
      users := seq(MAX_NUM_TABLES, _ => {});
      locks := seq(MAX_NUM_TABLES, _ => {});
      new;
      NothingKnown(pool.used[..], lladdr[..], usedMap[..], users);
      NothingKnown(pool.used[..], lladdr[..], lockedMap[..], locks);
    }

    // -------------------------------------------------------------------------------------------
    // Looking up

    /** `index_from_lladdr` */
    method IndexFromLladdr(address: Address) returns (slot: int)
      requires Valid()
      ensures slot == if address in slotOf then slotOf[address] else NO_SLOT
      ensures slot != NO_SLOT ==> 0 <= slot < lladdr.Length
    {
      var key := keys.Head();
      ghost var i: nat := 0;
      while key != NULL
        invariant i <= |keys.items| && key == At(keys.items, i)
        invariant forall j :: 0 <= j < i ==> keys.items[j] < lladdr.Length && lladdr[keys.items[j]] != address
        decreases |keys.items| - i
      {
        assert keys.items[i] in keys.items;
        if lladdr[key] == address {
          return key;
        }
        key := keys.ItemNext(key, i);
        i := i + 1;
      }
      slot := NO_SLOT;
    }

    /** `nbr_table_get_from_lladdr` */
    method GetFromLladdr(t: nat, address: Address) returns (slot: int)
      requires Valid() && t < MAX_NUM_TABLES
      ensures slot != NO_SLOT <==> address in Table(t)
      ensures slot != NO_SLOT ==> address in slotOf && slot == slotOf[address] && data[t, slot] == Table(t)[address]
    {
      slot := IndexFromLladdr(address);
      if slot != NO_SLOT && !Bit(usedMap[slot], t) {
        slot := NO_SLOT;
      }
    }

    /** `used_count` */
    method UsedCount(address: Address) returns (n: nat)
      requires Valid()
      ensures n == |TablesOf(users, address)|
    {
      hide Bit, KeysMatch, MapMatches, Chain, TablesOf, CountFrom;
      n := 0;
      var slot := IndexFromLladdr(address);
      if slot != NO_SLOT {
        BitmapCounts(usedMap[..], users, keys.items, slotOf, address);
        n := CountBits(usedMap[slot]);
      } else {
        StrangerIsUnused(usedMap[..], users, keys.items, slotOf, address);
      }
    }

    /** The loop that shifts the bits of a bitmap out one by one. */
    static method CountBits(map_: byte) returns (n: nat)
      ensures n == CountFrom(map_, 0)
    {
      hide Bit, Shifted, LowBit;
      n := 0;
      var used := map_;
      ghost var t := 0;
      ShiftedEnds(map_);
      while used != 0
        invariant 0 <= t <= MAX_NUM_TABLES && used == Shifted(map_, t)
        invariant n + CountFrom(map_, t) == CountFrom(map_, 0)
        decreases MAX_NUM_TABLES - t
      {
        ShiftedStep(map_, t);
        if LowBit(used) {
          n := n + 1;
        }
        used := used >> 1;
        t := t + 1;
      }
      NothingLeft(map_, t);
    }

    // -------------------------------------------------------------------------------------------
    // Making room

    /** `nbr_table_gc_get_worst` */
    method GetWorst(a1: Address, a2: Address) returns (worst: Address)
      requires Valid()
      ensures worst == if |TablesOf(users, a2)| < |TablesOf(users, a1)| then a2 else a1
    {
      var n2 := UsedCount(a2);
      var n1 := UsedCount(a1);
      worst := if n2 < n1 then a2 else a1;
    }

    /** What every listed key is known by. */
    lemma ListedKey(i: nat)
      requires Valid() && i < |keys.items|
      ensures var k := keys.items[i];
        && k < lladdr.Length && lladdr[k] in slotOf && slotOf[lladdr[k]] == k
        && (lockedMap[k] == 0 <==> !IsLocked(locks, lladdr[k]))
    {
      assert keys.items[i] in keys.items;
      BitmapCounts(lockedMap[..], locks, keys.items, slotOf, lladdr[keys.items[i]]);
    }

    /** Whether a listed neighbour uses a table. */
    lemma ListedUser(i: nat, t: nat)
      requires Valid() && i < |keys.items| && t < MAX_NUM_TABLES
      ensures var k := keys.items[i];
              k < lladdr.Length && (Bit(usedMap[k], t) <==> lladdr[k] in users[t])
    {
      assert keys.items[i] in keys.items;
    }

    lemma ListedKeys()
      requires Valid()
      ensures forall i :: 0 <= i < |keys.items| ==> keys.items[i] < |lladdr[..]|
    {
      assert forall i :: 0 <= i < |keys.items| ==> keys.items[i] in keys.items;
    }

    /** `select_for_removal`; the default NBR_TABLE_CAN_ACCEPT_NEW has no objection to anybody. */
    method SelectForRemoval() returns (found: bool, worst: Address, ghost at: nat)
      requires Valid()
      ensures forall i :: 0 <= i < |keys.items| ==> keys.items[i] < |lladdr[..]|
      ensures found ==> at < |keys.items| && worst == lladdr[keys.items[at]]
      ensures found ==> IsWorst(keys.items, lladdr[..], users, locks, |keys.items|, at)
      ensures !found ==> forall i :: 0 <= i < |keys.items| ==> IsLocked(locks, lladdr[keys.items[i]])
    {
      hide Bit, KeysMatch, MapMatches, Chain, TablesOf, IsLocked, Searched;
      found, worst, at := false, [], 0;
      ListedKeys();
      var key := keys.Head();
      ghost var i: nat := 0;
      SearchStarts(keys.items, lladdr[..], users, locks);
      while key != NULL
        invariant i <= |keys.items| && key == At(keys.items, i)
        invariant Searched(keys.items, lladdr[..], users, locks, i, found, worst, at)
        decreases |keys.items| - i
      {
        ListedKey(i);
        SearchGoesOn(keys.items, lladdr[..], users, locks, i, found, worst, at);
        if lockedMap[key] == 0 {
          if !found {
            found, worst, at := true, lladdr[key], i;
          } else {
            var other := GetWorst(worst, lladdr[key]);
            if |TablesOf(users, lladdr[key])| < |TablesOf(users, worst)| {
              at := i;
            }
            worst := other;
          }
        }
        key := keys.ItemNext(key, i);
        i := i + 1;
      }
      SearchEnds(keys.items, lladdr[..], users, locks, found, worst, at);
    }

    /** The loop of `remove_key` that calls back the tables which use the neighbour. */
    method Notify(k: nat, ghost address: Address)
      requires Valid() && address in slotOf && slotOf[address] == k
      modifies this`calls
      ensures calls == old(calls) + Notices(callbacks, numTables, users, address, k, MAX_NUM_TABLES)
      ensures Told(calls, old(calls), callbacks, numTables, users, address, k)
    {
      hide Bit, KeysMatch, Chain, Told;
      for i := 0 to MAX_NUM_TABLES
        invariant calls == old(calls) + Notices(callbacks, numTables, users, address, k, i)
      {
        if i < numTables && callbacks[i] {
          if Bit(usedMap[k], i) {
            calls := calls + [(i, k)];
          }
        }
      }
      NoticesAreTold(calls, old(calls), callbacks, numTables, users, address, k);
    }

    /** `remove_key`: the neighbour leaves every table, and its block the pool if that is wanted. */
    method RemoveKey(k: nat, free: bool)
      requires Valid() && k in keys.items
      modifies this, keys, keys.next, pool.used, usedMap, lockedMap
      ensures k < pool.used.Length && k < lladdr.Length
      ensures ValidFor(pool.used[..][k := false])
      ensures pool.used[..] == if free then old(pool.used[..])[k := false] else old(pool.used[..])
      ensures keys.items == Without(old(keys.items), k)
      ensures slotOf == old(slotOf) - {lladdr[k]}
      ensures users == WithoutAddress(old(users), lladdr[k]) && locks == WithoutAddress(old(locks), lladdr[k])
      ensures numTables == old(numTables) && callbacks == old(callbacks)
      ensures calls == old(calls) + Notices(callbacks, numTables, old(users), lladdr[k], k, MAX_NUM_TABLES)
      ensures Told(calls, old(calls), callbacks, numTables, old(users), lladdr[k], k)
    {
      hide Bit, KeysMatch, MapMatches, Chain, Without, WithoutAddress, Notices, Told;
      ghost var flags := pool.used[..];
      ListedKeyOf(k);
      ghost var address := lladdr[k];
      Notify(k, address);
      ForgetKey(keys.items, flags, lladdr[..], slotOf, k);
      ForgetInMap(usedMap[..], users, keys.items, slotOf, flags, lladdr[..], k);
      ForgetInMap(lockedMap[..], locks, keys.items, slotOf, flags, lladdr[..], k);
      usedMap[k] := 0;
      lockedMap[k] := 0;
      keys.Remove(k);
      if free {
        var result := pool.Release(k);
        assert pool.used[..][k := false] == flags[k := false];
      }
      slotOf := slotOf - {address};
      users := WithoutAddress(users, address);
      locks := WithoutAddress(locks, address);
    }

    lemma ListedKeyOf(k: nat)
      requires Valid() && k in keys.items
      ensures k < lladdr.Length && pool.used[k] && lladdr[k] in slotOf && slotOf[lladdr[k]] == k
    {
    }

    /** A block that the pool has handed out becomes the key of a new neighbour. */
    method Learn(k: nat, address: Address)
      requires Shape() && k < pool.used.Length && pool.used[k]
      requires ValidFor(pool.used[..][k := false]) && address !in slotOf
      modifies this`slotOf, keys, keys.next, lladdr
      ensures Valid() && slotOf == old(slotOf)[address := k]
      ensures keys.items == old(keys.items) + [k]
    {
      hide Bit, KeysMatch, MapMatches, Chain, Without;
      ghost var flags := pool.used[..][k := false];
      LearnKey(keys.items, flags, lladdr[..], slotOf, k, address);
      LearnInMap(usedMap[..], users, keys.items, slotOf, k, address);
      LearnInMap(lockedMap[..], locks, keys.items, slotOf, k, address);
      assert flags[k := true] == pool.used[..];
      keys.Add(k);
      lladdr[k] := address;
      slotOf := slotOf[address := k];
    }

    // -------------------------------------------------------------------------------------------
    // Adding

    /** The pool has no free block left and the neighbour does not have one. */
    ghost predicate NeedsRoom(address: Address)
      reads this, pool.used
    {
      address !in slotOf && Free(pool.used[..]) == {}
    }

    ghost predicate AllLocked()
      reads this, keys, lladdr
      requires |locks| == MAX_NUM_TABLES
    {
      forall i :: 0 <= i < |keys.items| && keys.items[i] < lladdr.Length ==> IsLocked(locks, lladdr[keys.items[i]])
    }

    /** The neighbour that the default policy gives up, by its address. */
    ghost predicate IsVictim(address: Address)
      reads this, keys, lladdr
      requires |users| == |locks| == MAX_NUM_TABLES
      requires forall i :: 0 <= i < |keys.items| ==> keys.items[i] < lladdr.Length
    {
      exists i :: 0 <= i < |keys.items| && address == lladdr[keys.items[i]]
                  && IsWorst(keys.items, lladdr[..], users, locks, |keys.items|, i)
    }

    /** `entry_is_allowed` */
    method EntryIsAllowed(t: nat, address: Address) returns (allowed: bool, toBeRemoved: Option<Address>)
      requires Valid() && t < MAX_NUM_TABLES
      ensures forall i :: 0 <= i < |keys.items| ==> keys.items[i] < lladdr.Length
      ensures allowed <==> !(NeedsRoom(address) && AllLocked())
      ensures toBeRemoved.Some? <==> NeedsRoom(address) && !AllLocked()
      ensures toBeRemoved.Some? ==> toBeRemoved.value in slotOf && IsVictim(toBeRemoved.value)
    {
      hide Bit, KeysMatch, MapMatches, Chain, IsLocked, IsWorst, TablesOf;
      ListedKeys();
      var slot := GetFromLladdr(t, address);
      if slot != NO_SLOT {
        return true, None;
      }
      var known := IndexFromLladdr(address);
      var numFree := pool.NumFree();
      if known != NO_SLOT || numFree > 0 {
        return true, None;
      }
      var found, worst, at := SelectForRemoval();
      if found {
        ListedKey(at);
        WorstIsUnlocked(keys.items, lladdr[..], users, locks, |keys.items|, at);
        assert keys.items[at] < lladdr.Length;
        return true, Some(worst);
      }
      return false, None;
    }

    /** `nbr_table_allocate`, and the new key goes on the list with its address. */
    method Enlist(address: Address, toBeRemoved: Option<Address>) returns (key: nat)
      requires Valid() && address !in slotOf
      requires toBeRemoved.Some? <==> Free(pool.used[..]) == {}
      requires toBeRemoved.Some? ==> toBeRemoved.value in slotOf
      modifies this, keys, keys.next, pool.used, lladdr, usedMap, lockedMap
      ensures Valid() && key < lladdr.Length && address in slotOf && slotOf[address] == key
      ensures numTables == old(numTables) && callbacks == old(callbacks)
      ensures forall u: nat :: u < MAX_NUM_TABLES ==> Table(u) == Evicted(old(Table(u)), toBeRemoved)
      ensures toBeRemoved.None? ==> slotOf == old(slotOf)[address := key] && users == old(users) && locks == old(locks)
      ensures toBeRemoved.None? ==> keys.items == old(keys.items) + [key] && calls == old(calls)
      ensures toBeRemoved.Some? ==>
        && key == old(slotOf)[toBeRemoved.value]
        && slotOf == (old(slotOf) - {toBeRemoved.value})[address := key]
        && users == WithoutAddress(old(users), toBeRemoved.value)
        && locks == WithoutAddress(old(locks), toBeRemoved.value)
        && keys.items == Without(old(keys.items), key) + [key]
        && Told(calls, old(calls), callbacks, numTables, old(users), toBeRemoved.value, key)
    {
      hide Bit, MapMatches, Chain, WithoutAddress, Notices, Told, Without, IsWorst, TableOf;
      UsersAreKnown(usedMap[..], users, keys.items, slotOf);
      var block := pool.Alloc();
      if block == -1 {
        key := IndexFromLladdr(toBeRemoved.value);
        RemoveKey(key, false);
      } else {
        key := block;
        assert pool.used[..][key := false] == old(pool.used[..]);
      }
      Learn(key, address);
      forall u: nat | u < MAX_NUM_TABLES
        ensures Table(u) == Evicted(old(Table(u)), toBeRemoved)
      {
        ReuseKeepsTable(old(users[u]), old(slotOf), Row(u),
                        if toBeRemoved.Some? then {toBeRemoved.value} else {}, address, key);
        assert Row(u) == old(Row(u));
      }
    }

    /** The item of a neighbour is cleared and the table uses it from now on. */
    method Use(t: nat, slot: nat, ghost address: Address)
      requires Valid() && t < MAX_NUM_TABLES && address in slotOf && slotOf[address] == slot
      modifies this`users, usedMap, data
      ensures Valid() && users == old(users)[t := old(users)[t] + {address}]
      ensures Table(t) == old(Table(t))[address := Zeroed(t)]
      ensures forall u: nat :: u < MAX_NUM_TABLES && u != t ==> Table(u) == old(Table(u))
    {
      hide Bit, SetBit, Chain, Zeroed, MapMatches;
      UsersAreKnown(usedMap[..], users, keys.items, slotOf);
      SetInMap(usedMap[..], users, keys.items, slotOf, pool.used[..], lladdr[..], address, t);
      data[t, slot] := Zeroed(t);
      usedMap[slot] := SetBit(usedMap[slot], t);
      users := users[t := users[t] + {address}];
      assert usedMap[..] == old(usedMap[..])[slot := usedMap[slot]];
    }

    /** A table after the eviction of a neighbour, if there was one. */
    static function Evicted(table: map<Address, Content>, victim: Option<Address>): map<Address, Content> {
      if victim.Some? then table - {victim.value} else table
    }

    /** Where a NULL address leads. */
    function Resolved(address: Option<Address>): Address {
      if address.Some? then address.value else linkaddrNull
    }

    /** `nbr_table_add_lladdr`; the reason and the data only go to the policy. */
    method AddLladdr(t: nat, address: Option<Address>) returns (slot: int, ghost victim: Option<Address>)
      requires Valid() && t < numTables
      modifies this, keys, keys.next, pool.used, lladdr, usedMap, lockedMap, data
      ensures Valid() && numTables == old(numTables) && callbacks == old(callbacks)
      ensures slot == NO_SLOT <==> old(NeedsRoom(Resolved(address))) && old(AllLocked())
      ensures slot == NO_SLOT ==>
        && slotOf == old(slotOf) && users == old(users) && locks == old(locks)
        && keys.items == old(keys.items) && calls == old(calls)
      ensures victim.Some? <==> old(NeedsRoom(Resolved(address))) && !old(AllLocked())
      ensures forall i :: 0 <= i < |old(keys.items)| ==> old(keys.items)[i] < lladdr.Length
      ensures victim.Some? ==> old(IsVictim(victim.value))
      ensures slot != NO_SLOT ==> Resolved(address) in slotOf && slot == slotOf[Resolved(address)]
      ensures slot != NO_SLOT ==> Table(t) == Evicted(old(Table(t)), victim)[Resolved(address) := Zeroed(t)]
      ensures forall u: nat :: u < MAX_NUM_TABLES && (u != t || slot == NO_SLOT) ==>
        Table(u) == Evicted(old(Table(u)), victim)
      ensures locks == if victim.Some? then WithoutAddress(old(locks), victim.value) else old(locks)
      // A neighbour that is known keeps its slot; a new one goes to the end of the list.
      ensures Resolved(address) in old(slotOf) ==>
        slotOf == old(slotOf) && keys.items == old(keys.items) && calls == old(calls)
      ensures slot != NO_SLOT && Resolved(address) !in old(slotOf) && victim.None? ==>
        && slotOf == old(slotOf)[Resolved(address) := slot]
        && keys.items == old(keys.items) + [slot] && calls == old(calls)
      // A victim's slot is reused, all others stay, and the tables that used the victim are told.
      ensures victim.Some? ==>
        && victim.value in old(slotOf) && slot == old(slotOf)[victim.value]
        && slotOf == (old(slotOf) - {victim.value})[Resolved(address) := slot]
        && keys.items == Without(old(keys.items), slot) + [slot as nat]
        && Told(calls, old(calls), callbacks, numTables, old(users), victim.value, slot)
    {
      hide Bit, SetBit, Chain, Zeroed, KeysMatch, MapMatches, IsWorst, IsLocked, WithoutAddress, Without,
           Told, Table;
      var a := Resolved(address);
      var allowed, toBeRemoved := EntryIsAllowed(t, a);
      victim := toBeRemoved;
      if !allowed {
        return NO_SLOT, None;
      }
      slot := IndexFromLladdr(a);
      if slot == NO_SLOT {
        slot := Enlist(a, toBeRemoved);
      }
      Use(t, slot, a);
    }

    // -------------------------------------------------------------------------------------------
    // Items of listed neighbours

    /** `nbr_set_bit` on the bitmap of the locks: `nbr_table_lock` and `nbr_table_unlock`. */
    method SetLock(t: nat, slot: int, locked: bool) returns (result: int)
      requires Valid() && t < MAX_NUM_TABLES && (slot != NO_SLOT ==> slot >= 0 && slot as nat in keys.items)
      modifies this`locks, lockedMap
      ensures Valid() && result == if slot == NO_SLOT then 0 else 1
      ensures slot == NO_SLOT ==> locks == old(locks)
      ensures slot != NO_SLOT ==>
        && slot < lladdr.Length
        && locks == old(locks)[t := if locked then old(locks)[t] + {lladdr[slot]} else old(locks)[t] - {lladdr[slot]}]
    {
      hide Bit, SetBit, ClearBit, Chain, MapMatches;
      if slot == NO_SLOT {
        return 0;
      }
      ListedKeyOf(slot);
      ghost var a := lladdr[slot];
      if locked {
        SetInMap(lockedMap[..], locks, keys.items, slotOf, pool.used[..], lladdr[..], a, t);
        lockedMap[slot] := SetBit(lockedMap[slot], t);
        locks := locks[t := locks[t] + {a}];
      } else {
        ClearInMap(lockedMap[..], locks, keys.items, slotOf, pool.used[..], lladdr[..], a, t);
        lockedMap[slot] := ClearBit(lockedMap[slot], t);
        locks := locks[t := locks[t] - {a}];
      }
      assert lockedMap[..] == old(lockedMap[..])[slot := lockedMap[slot]];
      result := 1;
    }

    /** `nbr_table_remove`: the neighbour leaves one table, and that table's lock is gone too; the key
        stays on the list. */
    method Remove(t: nat, slot: int) returns (result: int)
      requires Valid() && t < MAX_NUM_TABLES && (slot != NO_SLOT ==> slot >= 0 && slot as nat in keys.items)
      modifies this`users, this`locks, usedMap, lockedMap
      ensures Valid() && result == if slot == NO_SLOT then 0 else 1
      ensures slot == NO_SLOT ==> users == old(users) && locks == old(locks)
      ensures slot != NO_SLOT ==>
        && slot < lladdr.Length
        && users == old(users)[t := old(users)[t] - {lladdr[slot]}]
        && locks == old(locks)[t := old(locks)[t] - {lladdr[slot]}]
        && Table(t) == old(Table(t)) - {lladdr[slot]}
      ensures forall u: nat :: u < MAX_NUM_TABLES && (u != t || slot == NO_SLOT) ==> Table(u) == old(Table(u))
    {
      hide Bit, SetBit, ClearBit, Chain, MapMatches;
      UsersAreKnown(usedMap[..], users, keys.items, slotOf);
      if slot != NO_SLOT {
        ListedKeyOf(slot);
        ghost var a := lladdr[slot];
        ClearInMap(usedMap[..], users, keys.items, slotOf, pool.used[..], lladdr[..], a, t);
        usedMap[slot] := ClearBit(usedMap[slot], t);
        users := users[t := users[t] - {a}];
        assert usedMap[..] == old(usedMap[..])[slot := usedMap[slot]];
      }
      result := SetLock(t, slot, false);
    }

    /** The owner of a table stores into one of its items. */
    method StoreItem(t: nat, slot: nat, content: Content)
      requires Valid() && t < MAX_NUM_TABLES && slot in keys.items
      modifies data
      ensures Valid() && slot < lladdr.Length
      ensures forall u: nat, a :: u < MAX_NUM_TABLES && a in users[u] ==> a in Table(u) && old(a in Table(u))
      ensures forall u: nat, a :: u < MAX_NUM_TABLES && a in users[u] ==>
        Table(u)[a] == if u == t && a == lladdr[slot] then content else old(Table(u)[a])
    {
      hide Bit, Chain, MapMatches;
      UsersAreKnown(usedMap[..], users, keys.items, slotOf);
      ListedKeyOf(slot);
      data[t, slot] := content;
    }

    /** The callbacks made and those to come for the keys that are listed. */
    ghost predicate Reports(all: seq<(nat, nat)>)
      reads this, keys, lladdr
      requires |callbacks| == |users| == MAX_NUM_TABLES
    {
      && (forall i :: 0 <= i < |keys.items| ==> keys.items[i] < |lladdr[..]|)
      && calls + AllNotices(callbacks, numTables, users, lladdr[..], keys.items) == all
    }

    /** The loop body of `nbr_table_clear`. */
    method RemoveFirst(key: nat, ghost all: seq<(nat, nat)>)
      requires Valid() && |keys.items| > 0 && key == keys.items[0] && Reports(all)
      modifies this, keys, keys.next, pool.used, usedMap, lockedMap
      ensures Valid() && Reports(all) && |keys.items| < old(|keys.items|)
      ensures numTables == old(numTables) && callbacks == old(callbacks)
    {
      hide Bit, KeysMatch, MapMatches, Chain, Without, WithoutAddress, Notices, AllNotices;
      NoticesInSteps(key);
      RemoveKey(key, true);
      assert pool.used[..][key := false] == pool.used[..];
    }

    lemma NoticesInSteps(key: nat)
      requires Valid() && |keys.items| > 0 && key == keys.items[0]
      ensures forall i :: 0 <= i < |keys.items| ==> keys.items[i] < |lladdr[..]|
      ensures var rest := Without(keys.items, key);
        && (forall i :: 0 <= i < |rest| ==> rest[i] < |lladdr[..]|)
        && AllNotices(callbacks, numTables, users, lladdr[..], keys.items) ==
           Notices(callbacks, numTables, users, lladdr[key], key, MAX_NUM_TABLES) +
           AllNotices(callbacks, numTables, WithoutAddress(users, lladdr[key]), lladdr[..], rest)
    {
      hide Bit, KeysMatch, MapMatches, Chain, WithoutAddress, Notices;
      ListedKeys();
      WithoutHead(keys.items, keys.next[..], keys.head);
      var rest := keys.items[1..];
      forall i | 0 <= i < |rest|
        ensures rest[i] < lladdr.Length && lladdr[rest[i]] != lladdr[key]
      {
        AddressesDistinct(0, i + 1);
      }
      AllOthersAreNoticed(callbacks, numTables, users, lladdr[..], rest, lladdr[key]);
    }

    lemma ListIsDistinct()
      requires Valid()
      ensures Distinct(keys.items)
    {
    }

    lemma ReportsSoFar(all: seq<(nat, nat)>)
      requires Valid()
      ensures forall i :: 0 <= i < |keys.items| ==> keys.items[i] < |lladdr[..]|
      ensures all == calls + AllNotices(callbacks, numTables, users, lladdr[..], keys.items) ==> Reports(all)
      ensures keys.items == [] && Reports(all) ==> calls == all
    {
      hide Bit, KeysMatch, MapMatches, Chain, Notices;
      ListedKeys();
    }

    /** `nbr_table_clear` */
    method Clear()
      requires Valid()
      modifies this, keys, keys.next, pool.used, usedMap, lockedMap
      ensures Valid() && keys.items == [] && slotOf == map[]
      ensures forall u: nat :: u < MAX_NUM_TABLES ==> Table(u) == map[] && locks[u] == {}
      ensures Used(pool.used[..]) == {}
      ensures numTables == old(numTables) && callbacks == old(callbacks)
      ensures forall i :: 0 <= i < |old(keys.items)| ==> old(keys.items)[i] < lladdr.Length
      // Every neighbour is reported to the tables that use it, in list order.
      ensures old(calls) <= calls
      ensures AllTold(calls[|old(calls)|..], callbacks, numTables, old(users), lladdr[..], old(keys.items))
    {
      hide Bit, KeysMatch, MapMatches, Chain, AllNotices, AllTold, Reports;
      ListedKeys();
      ListIsDistinct();
      AllNoticesAre(callbacks, numTables, users, lladdr[..], keys.items);
      ghost var all := calls + AllNotices(callbacks, numTables, users, lladdr[..], keys.items);
      ReportsSoFar(all);
      var key := keys.Head();
      while key != NULL
        invariant Valid() && key == At(keys.items, 0) && Reports(all)
        invariant numTables == old(numTables) && callbacks == old(callbacks)
        decreases |keys.items|
      {
        RemoveFirst(key, all);
        key := keys.Head();
      }
      ReportsSoFar(all);
      assert calls[|old(calls)|..] == AllNotices(callbacks, numTables, old(users), lladdr[..], old(keys.items));
      NothingListed(pool.used[..], lladdr[..], usedMap[..], users, slotOf);
      NothingListed(pool.used[..], lladdr[..], lockedMap[..], locks, slotOf);
    }

    // -------------------------------------------------------------------------------------------
    // Iterating

    /** `nbr_table_next`: the next listed neighbour that the table uses. */
    method Next(t: nat, slot: int, ghost i: nat) returns (following: int)
      requires Valid() && t < MAX_NUM_TABLES && i <= |keys.items| && slot == At(keys.items, i)
      ensures forall m :: 0 <= m < |keys.items| ==> keys.items[m] < |lladdr[..]|
      ensures following ==
        if slot == NULL then NULL else At(keys.items, NextUser(keys.items, lladdr[..], users[t], i + 1))
    {
      hide Bit, Chain, NextUser, KeysMatch, MapMatches;
      ListedKeys();
      following := keys.ItemNext(slot, i);
      if slot == NULL {
        return;
      }
      ghost var j := i + 1;
      if j < |keys.items| {
        ListedUser(j, t);
      }
      while following != NULL && !Bit(usedMap[following], t)
        invariant i < j <= |keys.items| && following == At(keys.items, j)
        invariant following != NULL ==> (Bit(usedMap[following], t) <==> lladdr[following] in users[t])
        invariant forall m :: i < m < j ==> lladdr[keys.items[m]] !in users[t]
        decreases |keys.items| - j
      {
        following := keys.ItemNext(following, j);
        j := j + 1;
        if j < |keys.items| {
          ListedUser(j, t);
        }
      }
      NextUserIs(keys.items, lladdr[..], users[t], i + 1, j);
    }

    /** `nbr_table_head` */
    method Head(t: nat) returns (slot: int)
      requires Valid() && t < MAX_NUM_TABLES
      ensures forall m :: 0 <= m < |keys.items| ==> keys.items[m] < |lladdr[..]|
      ensures slot == At(keys.items, NextUser(keys.items, lladdr[..], users[t], 0))
    {
      hide Bit, Chain, KeysMatch, MapMatches;
      ListedKeys();
      slot := keys.Head();
      if |keys.items| > 0 {
        ListedUser(0, t);
      }
      if slot == NULL || !Bit(usedMap[slot], t) {
        slot := Next(t, slot, 0);
      }
    }

    /** The keys that use a table are those of the neighbours it maps. */
    lemma TableIsUsing(t: nat)
      requires Valid() && t < MAX_NUM_TABLES
      ensures forall m :: 0 <= m < |keys.items| ==> keys.items[m] < |lladdr[..]|
      ensures forall a :: a in users[t] ==> a in slotOf && slotOf[a] < data.Length1
      ensures Distinct(Using(keys.items, lladdr[..], users[t]))
      ensures forall a :: a in Table(t) <==> a in slotOf && slotOf[a] in Using(keys.items, lladdr[..], users[t])
    {
      hide Bit, Using;
      ListedKeys();
      UsersAreKnown(usedMap[..], users, keys.items, slotOf);
    }

    /** The usual loop over a table visits each of its neighbours once, in list order. */
    method Iterate(t: nat) returns (slots: seq<nat>)
      requires Valid() && t < MAX_NUM_TABLES
      ensures forall m :: 0 <= m < |keys.items| ==> keys.items[m] < |lladdr[..]|
      ensures slots == Using(keys.items, lladdr[..], users[t])
      ensures Distinct(slots)
      ensures forall a :: a in Table(t) <==> a in slotOf && slotOf[a] in slots
    {
      hide Bit, Using, NextUser, Chain, KeysMatch, MapMatches, Distinct, TableOf, Visited;
      ListedKeys();
      TableIsUsing(t);
      slots := [];
      VisitStarts(keys.items, lladdr[..], users[t]);
      var slot := Head(t);
      ghost var j := NextUser(keys.items, lladdr[..], users[t], 0);
      while slot != NULL
        invariant j <= |keys.items| && slot == At(keys.items, j)
        invariant Visited(keys.items, lladdr[..], users[t], j, slots)
        decreases |keys.items| - j
      {
        VisitGoesOn(keys.items, lladdr[..], users[t], j, slots);
        slots := slots + [slot];
        slot := Next(t, slot, j);
        j := NextUser(keys.items, lladdr[..], users[t], j + 1);
      }
      VisitEnds(keys.items, lladdr[..], users[t], slots);
    }

    /** `nbr_table_register`: a new table gets the next index; one that has an index only changes its
        callback. */
    method Register(table: Option<nat>, callback: bool) returns (ok: bool, t: nat)
      requires Valid() && (table.Some? ==> table.value < numTables)
      modifies this`numTables, this`callbacks
      ensures Valid()
      ensures ok <==> table.Some? || old(numTables) < MAX_NUM_TABLES
      ensures ok ==> t < numTables && callbacks == old(callbacks)[t := callback]
      ensures ok ==>
        if table.Some? then t == table.value && numTables == old(numTables) else t == old(numTables) == numTables - 1
      ensures !ok ==> numTables == old(numTables) && callbacks == old(callbacks)
    {
      if table.Some? {
        callbacks := callbacks[table.value := callback];
        return true, table.value;
      }
      if numTables < MAX_NUM_TABLES {
        t := numTables;
        numTables := numTables + 1;
        callbacks := callbacks[t := callback];
        return true, t;
      }
      return false, 0;
    }

    /** No two listed neighbours have the same address. */
    lemma AddressesDistinct(i: nat, j: nat)
      requires Valid() && i < j < |keys.items|
      ensures keys.items[i] < lladdr.Length && keys.items[j] < lladdr.Length
      ensures lladdr[keys.items[i]] != lladdr[keys.items[j]]
    {
      assert keys.items[i] in keys.items && keys.items[j] in keys.items;
    }

    /** A block that carries no listed neighbour is free in the pool and in no bitmap. */
    lemma UnlistedIsClean(k: nat)
      requires Valid() && k < pool.used.Length
      ensures k in keys.items <==> pool.used[k]
      ensures k !in keys.items ==> usedMap[k] == 0 && lockedMap[k] == 0
    {
    }
  }
}
