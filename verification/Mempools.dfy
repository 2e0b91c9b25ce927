/**
 * The part of rte_mempool that the programs rely on: a fixed set of objects, taken and
 * given back in bulk. An object stands for its address.
 */
module Mempools {
  import opened Util

  type Obj = nat

  class Mempool {
    const size: nat
    /** Objects that are in the pool, the next one to be handed out last. */
    var free: seq<Obj>

    /** All objects of the pool, each exactly once. */
    ghost function Objects(): (m: multiset<Obj>)
    {
      multiset(Range(0, size))
    }

    constructor (n: nat)
      ensures size == n
      ensures multiset(free) == Objects()
    {
      size := n;
      free := [];
      new;
      var i := 0;
      while i < n
        invariant 0 <= i <= n
        invariant free == Range(0, i)
      {
        free := free + [i];
        i := i + 1;
      }
    }

    /** rte_mempool_get_bulk: all `n` objects or none. */
    method GetBulk(table: array<Obj>, at: nat, n: nat) returns (ok: bool)
      requires at + n <= table.Length
      modifies this`free, table
      ensures ok <==> n <= |old(free)|
      ensures !ok ==> free == old(free) && table[..] == old(table[..])
      ensures ok ==> multiset(free) + multiset(table[at..at + n]) == multiset(old(free))
      ensures ok ==> |free| == |old(free)| - n
      ensures table[..at] == old(table[..at]) && table[at + n..] == old(table[at + n..])
    {
      ok := n <= |free|;
      if ok {
        var kept := |free| - n;
        var taken := free[kept..];
        assert free == free[..kept] + taken;
        forall k | 0 <= k < n {
          table[at + k] := taken[k];
        }
        free := free[..kept];
        assert table[at..at + n] == taken;
      }
    }

    /** rte_mempool_put_bulk. */
    method PutBulk(table: array<Obj>, at: nat, n: nat)
      requires at + n <= table.Length
      modifies this`free
      ensures free == old(free) + table[at..at + n]
    {
      free := free + table[at..at + n];
    }
  }

  /** Objects taken from the pool are different objects of the pool. */
  lemma TakenFromPool(free: seq<Obj>, ids: seq<Obj>, size: nat)
    requires multiset(free) + multiset(ids) == multiset(Range(0, size))
    ensures NoDup(ids) && forall i :: 0 <= i < |ids| ==> ids[i] < size
  {
    SubNoDup(ids, Range(0, size));
    forall i | 0 <= i < |ids| ensures ids[i] < size {
      assert ids[i] in Range(0, size);
    }
  }

  /** memmove(&a[to], &a[from], n). */
  method MemMove(a: array<Obj>, to: nat, from: nat, n: nat)
    requires to <= from && from + n <= a.Length
    modifies a
    ensures a[to..to + n] == old(a[from..from + n])
    ensures a[..to] == old(a[..to]) && a[to + n..] == old(a[to + n..])
  {
    forall k | 0 <= k < n {
      a[to + k] := a[from + k];
    }
  }
}
