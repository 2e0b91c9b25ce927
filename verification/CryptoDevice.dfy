/**
 * The contract of the crypto device behind rte_cryptodev_enqueue_burst and
 * rte_cryptodev_dequeue_burst: any part of a burst may be accepted, and finished operations
 * come back in any number and order.
 */
module CryptoDevices {
  import opened Util
  import opened Mempools
  import opened Traffic

  /** The time stamp counter: a 64-bit value that does not go back. */
  class Clock {
    var now: nat
    /** All values read so far. */
    ghost var readings: seq<nat>

    constructor ()
      ensures now == 0 && readings == []
    {
      now, readings := 0, [];
    }

    method Read() returns (t: nat)
      requires now < 0x1_0000_0000_0000_0000
      modifies this
      ensures old(now) <= t == now < 0x1_0000_0000_0000_0000
      ensures readings == old(readings) + [t]
    {
      t :| now <= t < 0x1_0000_0000_0000_0000;
      now, readings := t, readings + [t];
    }
  }

  class CryptoDevice {
    const clock: Clock
    var inflight: seq<Obj>
    /** How many more polls may be fruitless. */
    var stalls: nat
    /** All operations accepted and all operations returned so far, in order. */
    ghost var accepted: seq<Obj>
    ghost var returned: seq<Obj>
    /** For each of them, how often the clock had been read by then. */
    ghost var acceptedAt: seq<nat>
    ghost var returnedAt: seq<nat>

    /** All calls so far, with the numbers of operations they asked for. */
    ghost var calls: seq<Call>

    /** What has been accepted is in the device or has been returned. */
    ghost predicate Valid()
      reads this
    {
      && Balanced(returned, inflight, accepted)
      && |acceptedAt| == |accepted| && |returnedAt| == |returned|
    }

    constructor (clock: Clock, stalls: nat)
      ensures Valid() && inflight == accepted == returned == [] && this.clock == clock && this.stalls == stalls
    {
      this.clock, this.stalls := clock, stalls;
      inflight, accepted, returned, acceptedAt, returnedAt, calls := [], [], [], [], [], [];
    }

    method EnqueueBurst(ops: array<Obj>, at: nat, n: nat) returns (k: nat)
      requires Valid() && at + n <= ops.Length
      modifies this
      ensures Valid() && k <= n && inflight == old(inflight) + ops[at..at + k]
      ensures accepted == old(accepted) + ops[at..at + k]
      ensures acceptedAt == old(acceptedAt) + Times(|clock.readings|, k)
      ensures returned == old(returned) && returnedAt == old(returnedAt)
      ensures calls == old(calls) + [Enq(n, k)]
      ensures stalls <= old(stalls) && (k == 0 && n > 0 ==> stalls < old(stalls))
    {
      hide Times, Balanced;
      k :| 0 <= k <= n && (k == 0 && n > 0 ==> stalls > 0);
      if k == 0 && n > 0 {
        stalls := stalls - 1;
      }
      BalanceAccepted(returned, inflight, accepted, ops[at..at + k]);
      inflight := inflight + ops[at..at + k];
      accepted := accepted + ops[at..at + k];
      acceptedAt := acceptedAt + Times(|clock.readings|, k);
      calls := calls + [Enq(n, k)];
    }

    /** The finished operations are written to ops[at..at + k]. */
    method DequeueBurst(ops: array<Obj>, at: nat, n: nat) returns (k: nat)
      requires Valid() && at + n <= ops.Length
      modifies this, ops
      ensures Valid() && k <= n && k <= |old(inflight)| && |inflight| == |old(inflight)| - k
      ensures multiset(ops[at..at + k]) + multiset(inflight) == multiset(old(inflight))
      ensures ops[..at] == old(ops[..at]) && ops[at + k..] == old(ops[at + k..])
      ensures returned == old(returned) + ops[at..at + k]
      ensures returnedAt == old(returnedAt) + Times(|clock.readings|, k)
      ensures accepted == old(accepted) && acceptedAt == old(acceptedAt)
      ensures calls == old(calls) + [Deq(n, k)]
      ensures stalls <= old(stalls)
      ensures k == 0 && n > 0 && old(inflight) != [] ==> stalls < old(stalls)
    {
      hide Times, Balanced;
      var got := Choose(n);
      k := |got|;
      BalanceReturned(returned, old(inflight), accepted, got, inflight);
      Store(got, ops, at);
      returned := returned + got;
      returnedAt := returnedAt + Times(|clock.readings|, k);
      calls := calls + [Deq(n, k)];
    }

    static method Store(got: seq<Obj>, ops: array<Obj>, at: nat)
      requires at + |got| <= ops.Length
      modifies ops
      ensures ops[at..at + |got|] == got
      ensures ops[..at] == old(ops[..at]) && ops[at + |got|..] == old(ops[at + |got|..])
    {
      forall i | 0 <= i < |got| {
        ops[at + i] := got[i];
      }
    }

    /** How many and which operations are ready. */
    method Choose(n: nat) returns (got: seq<Obj>)
      modifies this`inflight, this`stalls
      ensures |got| <= n && |inflight| == |old(inflight)| - |got|
      ensures multiset(got) + multiset(inflight) == multiset(old(inflight))
      ensures stalls <= old(stalls)
      ensures got == [] && n > 0 && old(inflight) != [] ==> stalls < old(stalls)
    {
      var most := Min(n, |inflight|);
      var k :| 0 <= k <= most && (k == 0 && most > 0 ==> stalls > 0);
      if k == 0 && most > 0 {
        stalls := stalls - 1;
      }
      got := TakeAny(k);
    }

    /** Any `k` of the operations in the device. */
    method TakeAny(k: nat) returns (got: seq<Obj>)
      requires k <= |inflight|
      modifies this`inflight
      ensures |got| == k && |inflight| == |old(inflight)| - k
      ensures multiset(got) + multiset(inflight) == multiset(old(inflight))
    {
      got := [];
      while |got| < k
        invariant |got| <= k && |inflight| == |old(inflight)| - |got|
        invariant multiset(got) + multiset(inflight) == multiset(old(inflight))
      {
        var j :| 0 <= j < |inflight|;
        WithoutOne(inflight, j);
        got, inflight := got + [inflight[j]], inflight[..j] + inflight[j + 1..];
      }
    }

    /** Since the logs were `a` and `r`, `enqd` operations have been accepted and `deqd` returned. */
    ghost predicate Since(a: seq<Obj>, r: seq<Obj>, enqd: nat, deqd: nat)
      reads this
    {
      && Valid() && a <= accepted && r <= returned
      && |accepted| == |a| + enqd && |returned| == |r| + deqd
    }

    /** Since then `n` operations have been accepted, and the same operations have been returned. */
    ghost predicate Exercised(a: seq<Obj>, r: seq<Obj>, n: nat)
      reads this
    {
      && Since(a, r, n, n)
      && multiset(returned[|r|..]) == multiset(accepted[|a|..])
    }

    lemma NothingInside()
      requires Valid() && inflight == []
      ensures multiset(accepted) == multiset(returned) && Since(accepted, returned, 0, 0)
    {
    }

    lemma SinceMore(a: seq<Obj>, r: seq<Obj>, a': seq<Obj>, r': seq<Obj>, enqd: nat, deqd: nat, n: nat)
      requires a <= a' && |a'| == |a| + enqd && r <= r' && |r'| == |r| + deqd && Since(a', r', n, n)
      ensures Since(a, r, enqd + n, deqd + n)
    {
    }

    /** Between two times when the device is empty, what is returned is what is accepted. */
    lemma AllBack(a: seq<Obj>, r: seq<Obj>, n: nat)
      requires inflight == [] && multiset(a) == multiset(r) && Since(a, r, n, n)
      ensures Exercised(a, r, n)
    {
      SameSince(a, accepted, r, returned);
    }
  }

  /** What is accepted is neither lost nor doubled. */
  ghost predicate Balanced(returned: seq<Obj>, inflight: seq<Obj>, accepted: seq<Obj>)
  {
    multiset(returned) + multiset(inflight) == multiset(accepted)
  }

  lemma BalanceAccepted(returned: seq<Obj>, inflight: seq<Obj>, accepted: seq<Obj>, more: seq<Obj>)
    requires Balanced(returned, inflight, accepted)
    ensures Balanced(returned, inflight + more, accepted + more)
  {
  }

  lemma BalanceReturned(returned: seq<Obj>, flight: seq<Obj>, accepted: seq<Obj>, got: seq<Obj>, rest: seq<Obj>)
    requires Balanced(returned, flight, accepted) && multiset(got) + multiset(rest) == multiset(flight)
    ensures Balanced(returned + got, rest, accepted)
  {
    assert multiset(returned + got) + multiset(rest) == multiset(returned) + (multiset(got) + multiset(rest));
  }

  lemma SameSince(a: seq<Obj>, accepted: seq<Obj>, r: seq<Obj>, returned: seq<Obj>)
    requires a <= accepted && r <= returned && multiset(a) == multiset(r) && Balanced(returned, [], accepted)
    ensures multiset(returned[|r|..]) == multiset(accepted[|a|..])
  {
    var more, back := accepted[|a|..], returned[|r|..];
    assert accepted == a + more && returned == r + back;
    CancelCounts(multiset(a), multiset(more), multiset(back));
  }

  lemma CancelCounts<T>(m: multiset<T>, x: multiset<T>, y: multiset<T>)
    requires m + x == m + y
    ensures x == y
  {
    assert x == (m + x) - m && y == (m + y) - m;
  }

  /** `k` times the same. */
  ghost function Times(t: nat, k: nat): (s: seq<nat>)
    ensures |s| == k && forall i :: 0 <= i < k ==> s[i] == t
  {
    seq(k, _ => t)
  }

  lemma WithoutOne(s: seq<Obj>, j: nat)
    requires j < |s|
    ensures multiset(s[..j] + s[j + 1..]) + multiset{s[j]} == multiset(s)
  {
    assert s == s[..j] + [s[j]] + s[j + 1..];
  }

  /** Every object of a pool is in exactly one place. */
  ghost predicate AllThere(pool: Mempool, staged: seq<Obj>, flight: seq<Obj>)
    reads pool`free
  {
    multiset(pool.free) + multiset(staged) + multiset(flight) == pool.Objects()
  }

  lemma Sizes(pool: Mempool, staged: seq<Obj>, flight: seq<Obj>)
    requires AllThere(pool, staged, flight)
    ensures |pool.free| + |staged| + |flight| == pool.size
    ensures NoDup(staged) && NoDup(flight)
    ensures forall o :: o in staged ==> o < pool.size && o !in flight
    ensures forall o :: o in flight ==> o < pool.size
  {
    var all := Range(0, pool.size);
    assert multiset(pool.free + staged + flight) == multiset(all);
    SameSize(pool.free + staged + flight, all);
    SubNoDup(staged, all);
    SubNoDup(flight, all);
    NoDupCounts(all);
    forall o | o in staged ensures o !in flight {
      assert multiset(staged)[o] >= 1;
      assert multiset(all)[o] <= 1;
    }
  }
}
