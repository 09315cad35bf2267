/** The fixed-size block pool of os/lib/memb.c.  A block is its index; `used` is the flag array. */
module Memb {

  /** The blocks in use. */
  function Used(flags: seq<bool>): set<nat> {
    set i | 0 <= i < |flags| && flags[i]
  }

  function Free(flags: seq<bool>): set<nat> {
    set i | 0 <= i < |flags| && !flags[i]
  }

  class Pool {
    const used: array<bool>

    /** `memb_init` */
    constructor (num: nat)
      ensures fresh(used) && used.Length == num && forall i :: 0 <= i < num ==> !used[i]
    {
      used := new bool[num](_ => false);
    }

    /** `memb_alloc`: the first free block, or -1 for NULL if there is none. */
    method Alloc() returns (block: int)
      modifies used
      ensures block == -1 <==> Free(old(used[..])) == {}
      ensures block == -1 ==> used[..] == old(used[..])
      ensures block != -1 ==>
        && 0 <= block < used.Length && !old(used[block])
        && (forall i :: 0 <= i < block ==> old(used[i]))
        && used[..] == old(used[..])[block := true]
    {
      for i := 0 to used.Length
        invariant used[..] == old(used[..])
        invariant forall k :: 0 <= k < i ==> used[k]
      {
        if !used[i] {
          assert i in Free(old(used[..]));
          used[i] := true;
          return i;
        }
      }
      block := -1;
    }

    /** `memb_free`: 0, or -1 for a pointer that is no block of the pool or no block in use. */
    method Release(block: int) returns (result: int)
      modifies used
      ensures result == 0 <==> 0 <= block < used.Length && old(used[block])
      ensures result == 0 ==> used[..] == old(used[..])[block := false]
      ensures result != 0 ==> result == -1 && used[..] == old(used[..])
    {
      for i := 0 to used.Length
        invariant used[..] == old(used[..])
        invariant block < 0 || i <= block
      {
        if i == block {
          if !used[i] {
            return -1;
          }
          used[i] := false;
          return 0;
        }
      }
      result := -1;
    }

    /** `memb_numfree` */
    method NumFree() returns (n: nat)
      ensures n == |Free(used[..])|
    {
      n := 0;
      for i := 0 to used.Length
        invariant n == |Free(used[..i])|
      {
        assert used[..i + 1] == used[..i] + [used[i]];
        FreeOneMore(used[..i], used[i]);
        if !used[i] {
          n := n + 1;
        }
      }
      assert used[..used.Length] == used[..];
    }
  }

  lemma FreeOneMore(flags: seq<bool>, flag: bool)
    ensures |Free(flags + [flag])| == |Free(flags)| + if flag then 0 else 1
  {
    if flag {
      assert Free(flags + [flag]) == Free(flags);
    } else {
      assert Free(flags + [flag]) == Free(flags) + {|flags|};
    }
  }

  /** Every block is in use or free, never both. */
  lemma {:induction false} UsedAndFree(flags: seq<bool>)
    ensures |Used(flags)| + |Free(flags)| == |flags|
    ensures Used(flags) !! Free(flags)
  {
    if flags != [] {
      var n := |flags| - 1;
      var rest := flags[..n];
      UsedAndFree(rest);
      assert Used(flags) == if flags[n] then Used(rest) + {n} else Used(rest);
      assert Free(flags) == if flags[n] then Free(rest) else Free(rest) + {n};
    }
  }
}
