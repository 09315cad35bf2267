/** The linked list of os/lib/list.c, over nodes that live in a pool: a node is its index in the pool,
    NULL is -1, and `next[n]` is the first word of node `n`. */
module List {

  const NULL: int := -1

  function At(items: seq<nat>, i: int): int {
    if 0 <= i < |items| then items[i] else NULL
  }

  predicate Distinct(items: seq<nat>) {
    forall i, j :: 0 <= i < j < |items| ==> items[i] != items[j]
  }

  /** The `i`-th node points at the one after it. */
  predicate LinkedAt(items: seq<nat>, next: seq<int>, i: nat)
    requires i < |items|
  {
    items[i] < |next| && next[items[i]] == At(items, i + 1)
  }

  /** Following `next` from `head` visits exactly `items`, no node twice. */
  ghost predicate Chain(items: seq<nat>, next: seq<int>, head: int) {
    && head == At(items, 0)
    && Distinct(items)
    && forall i {:trigger LinkedAt(items, next, i)} :: 0 <= i < |items| ==> LinkedAt(items, next, i)
  }

  function DropAt(items: seq<nat>, i: nat): seq<nat>
    requires i < |items|
  {
    items[..i] + items[i + 1..]
  }

  function InsertAt(items: seq<nat>, i: nat, item: nat): seq<nat>
    requires i <= |items|
  {
    items[..i] + [item] + items[i..]
  }

  /** The list without the given node. */
  function Without(items: seq<nat>, item: nat): (r: seq<nat>)
    ensures forall x :: x in r <==> x in items && x != item
    ensures item !in items ==> r == items
    ensures |r| <= |items| && (item in items ==> |r| < |items|)
  {
    if items == [] then []
    else
      var rest := Without(items[1..], item);
      if items[0] == item then rest else [items[0]] + rest
  }

  /** For a node that occurs once, that is the list with one position dropped. */
  lemma {:induction false} WithoutAt(items: seq<nat>, i: nat)
    requires i < |items| && Distinct(items)
    ensures Without(items, items[i]) == DropAt(items, i)
  {
    hide Without;
    var rest := items[1..];
    WithoutInSteps(items, items[i]);
    if i == 0 {
      assert items[0] !in rest;
      assert DropAt(items, 0) == rest;
    } else {
      assert rest[i - 1] == items[i] != items[0];
      WithoutAt(rest, i - 1);
      assert DropAt(items, i) == [items[0]] + DropAt(rest, i - 1);
    }
  }

  lemma WithoutInSteps(items: seq<nat>, item: nat)
    requires items != []
    ensures Without(items, item) == (if items[0] == item then [] else [items[0]]) + Without(items[1..], item)
  {
  }

  lemma WithoutHead(items: seq<nat>, next: seq<int>, head: int)
    requires Chain(items, next, head) && items != []
    ensures Without(items, items[0]) == items[1..]
  {
    hide Without;
    WithoutAt(items, 0);
  }

  lemma DropKeepsChain(items: seq<nat>, next: seq<int>, next': seq<int>, head: int, i: nat)
    requires Chain(items, next, head) && i < |items| && |next'| == |next|
    requires forall j :: 0 <= j < |items| && j != i && items[j] < |next| ==>
      next'[items[j]] == if j == i - 1 then At(items, i + 1) else next[items[j]]
    ensures Chain(DropAt(items, i), next', if i == 0 then At(items, 1) else head)
  {
    var r := DropAt(items, i);
    forall k | 0 <= k < |r|
      ensures LinkedAt(r, next', k)
    {
      var j := if k < i then k else k + 1;
      assert r[k] == items[j];
      assert LinkedAt(items, next, j);
    }
  }

  lemma InsertKeepsChain(items: seq<nat>, next: seq<int>, next': seq<int>, head: int, i: nat, item: nat)
    requires Chain(items, next, head) && i <= |items| && item !in items && |next'| == |next|
    requires item < |next| && next'[item] == At(items, i)
    requires forall j :: 0 <= j < |items| && items[j] < |next| ==>
      next'[items[j]] == if j == i - 1 then item else next[items[j]]
    ensures Chain(InsertAt(items, i, item), next', if i == 0 then item else head)
  {
    var r := InsertAt(items, i, item);
    forall k | 0 <= k < |r|
      ensures LinkedAt(r, next', k)
    {
      if k != i {
        var j := if k < i then k else k - 1;
        assert r[k] == items[j];
        assert LinkedAt(items, next, j);
      }
    }
  }

  lemma NodeInPool(items: seq<nat>, next: seq<int>, head: int, i: int)
    requires Chain(items, next, head)
    ensures 0 <= i < |items| ==> items[i] < |next| && next[items[i]] == At(items, i + 1)
  {
    assert 0 <= i < |items| ==> LinkedAt(items, next, i);
  }

  class KeyList {
    const next: array<int>
    var head: int
    ghost var items: seq<nat>

    ghost predicate Valid()
      reads this, next
    {
      Chain(items, next[..], head)
    }

    constructor (size: nat)
      ensures Valid() && items == [] && fresh(next) && next.Length == size
    {
      next := new int[size];
      head, items := NULL, [];
    }

    /** `list_head` */
    method Head() returns (item: int)
      requires Valid()
      ensures item == At(items, 0)
    {
      item := head;
    }

    /** `list_item_next`; the list does not say where the node stands, so the caller does. */
    method ItemNext(item: int, ghost i: nat) returns (following: int)
      requires Valid() && item == At(items, i)
      ensures following == At(items, i + 1)
    {
      NodeInPool(items, next[..], head, i);
      following := if item == NULL then NULL else next[item];
    }

    /** `list_tail` */
    method Tail() returns (item: int)
      requires Valid()
      ensures item == At(items, |items| - 1)
    {
      if head == NULL {
        return NULL;
      }
      item := head;
      ghost var i := 0;
      NodeInPool(items, next[..], head, i);
      while next[item] != NULL
        invariant 0 <= i < |items| && item == items[i] < next.Length && next[item] == At(items, i + 1)
        decreases |items| - i
      {
        item := next[item];
        i := i + 1;
        NodeInPool(items, next[..], head, i);
      }
    }

    /** `list_length` */
    method Length() returns (n: nat)
      requires Valid()
      ensures n == |items|
    {
      n := 0;
      var current := head;
      while current != NULL
        invariant n <= |items| && current == At(items, n)
        decreases |items| - n
      {
        NodeInPool(items, next[..], head, n);
        current := next[current];
        n := n + 1;
      }
    }

    /** `list_contains` */
    method Contains(item: nat) returns (found: bool)
      requires Valid()
      ensures found <==> item in items
    {
      var current := head;
      ghost var i: nat := 0;
      while current != NULL
        invariant i <= |items| && current == At(items, i) && item !in items[..i]
        decreases |items| - i
      {
        if current == item {
          return true;
        }
        NodeInPool(items, next[..], head, i);
        current := next[current];
        i := i + 1;
      }
      assert items[..i] == items;
      found := false;
    }

    /** `list_remove` */
    method Remove(item: nat)
      requires Valid()
      modifies this, next
      ensures Valid() && items == Without(old(items), item)
      ensures item in old(items) ==> item < next.Length && next[item] == NULL
    {
      hide Without;
      var before, current := NULL, head;
      ghost var i: nat := 0;
      while current != NULL
        invariant Valid() && items == old(items) && next[..] == old(next[..]) && head == old(head)
        invariant i <= |items| && before == At(items, i - 1) && current == At(items, i)
        invariant item !in items[..i]
        decreases |items| - i
      {
        NodeInPool(items, next[..], head, i);
        if current == item {
          NodeInPool(items, next[..], head, i - 1);
          if before == NULL {
            head := next[current];
          } else {
            next[before] := next[current];
          }
          next[current] := NULL;
          DropKeepsChain(items, old(next[..]), next[..], old(head), i);
          WithoutAt(items, i);
          items := DropAt(items, i);
          return;
        }
        before, current := current, next[current];
        i := i + 1;
      }
      assert items[..i] == items;
    }

    /** `list_add`: at the end, and never twice. */
    method Add(item: nat)
      requires Valid() && item < next.Length
      modifies this, next
      ensures Valid() && items == Without(old(items), item) + [item]
    {
      hide Without;
      Remove(item);
      ghost var n, links, was := |items|, next[..], head;
      next[item] := NULL;
      FreeNodeKeepsChain(items, links, item, NULL, head);
      NodeInPool(items, next[..], head, n - 1);
      var last := Tail();
      if last == NULL {
        head := item;
      } else {
        next[last] := item;
      }
      InsertKeepsChain(items, links, next[..], was, n, item);
      items := InsertAt(items, n, item);
      assert items == Without(old(items), item) + [item];
    }

    /** `list_push`: at the front. */
    method Push(item: nat)
      requires Valid() && item < next.Length
      modifies this, next
      ensures Valid() && items == [item] + Without(old(items), item)
    {
      hide Without;
      Remove(item);
      ghost var links, was := next[..], head;
      next[item] := head;
      head := item;
      InsertKeepsChain(items, links, next[..], was, 0, item);
      items := InsertAt(items, 0, item);
      assert items == [item] + Without(old(items), item);
    }

    /** `list_pop` */
    method Pop() returns (item: int)
      requires Valid()
      modifies this
      ensures Valid() && item == At(old(items), 0)
      ensures items == if old(items) == [] then [] else old(items)[1..]
    {
      item := head;
      if head != NULL {
        NodeInPool(items, next[..], head, 0);
        head := next[head];
        DropKeepsChain(items, next[..], next[..], old(head), 0);
        items := items[1..];
        assert items == DropAt(old(items), 0);
      }
    }

    /** `list_chop`: the last node is taken off. */
    method Chop() returns (item: int)
      requires Valid()
      modifies this, next
      ensures Valid() && item == At(old(items), |old(items)| - 1)
      ensures items == if old(items) == [] then [] else old(items)[..|old(items)| - 1]
    {
      if head == NULL {
        return NULL;
      }
      ghost var n, links := |items|, next[..];
      NodeInPool(items, next[..], head, 0);
      if next[head] == NULL {
        item := head;
        head := NULL;
        items := [];
        return;
      }
      var current := head;
      ghost var i := 0;
      NodeInPool(items, next[..], head, 1);
      while next[next[current]] != NULL
        invariant Valid() && items == old(items) && next[..] == links && head == old(head)
        invariant 0 <= i < n - 1 && current == items[i] < next.Length
        invariant next[current] == items[i + 1] < next.Length && next[next[current]] == At(items, i + 2)
        decreases n - i
      {
        current := next[current];
        i := i + 1;
        NodeInPool(items, next[..], head, i);
        NodeInPool(items, next[..], head, i + 1);
      }
      item := next[current];
      next[current] := NULL;
      DropKeepsChain(items, links, next[..], head, n - 1);
      items := items[..n - 1];
      assert items == DropAt(old(items), n - 1);
    }

    /** `list_insert`: behind a given node, or at the front.  Behind itself a node is lost: it points at itself. */
    method Insert(previous: int, item: nat, ghost i: nat)
      requires Valid() && item < next.Length
      requires previous != NULL && previous != item ==>
        i < |Without(items, item)| && previous == Without(items, item)[i]
      modifies this, next
      ensures Valid()
      ensures previous != item ==>
        items == InsertAt(Without(old(items), item), if previous == NULL then 0 else i + 1, item)
      ensures previous == item ==> items == Without(old(items), item) && next[item] == item
    {
      hide Without;
      if previous == NULL {
        Push(item);
      } else {
        Remove(item);
        ghost var links := next[..];
        if previous == item {
          FreeNodeKeepsChain(items, links, item, item, head);
        } else {
          NodeInPool(items, links, head, i);
        }
        next[item] := next[previous];
        next[previous] := item;
        if previous != item {
          InsertKeepsChain(items, links, next[..], head, i + 1, item);
          items := InsertAt(items, i + 1, item);
        } else {
          assert next[..] == links[item := item];
        }
      }
    }
  }

  lemma FreeNodeKeepsChain(items: seq<nat>, next: seq<int>, item: nat, link: int, head: int)
    requires Chain(items, next, head) && item !in items && item < |next|
    ensures Chain(items, next[item := link], head)
  {
    forall i {:trigger items[i]} | 0 <= i < |items|
      ensures LinkedAt(items, next[item := link], i)
    {
      assert LinkedAt(items, next, i) && items[i] in items;
    }
  }
}
