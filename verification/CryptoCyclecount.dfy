/**
 * The PMD cycle count test of test-crypto-perf (cperf_test_pmd_cyclecount.c). Finished ops are
 * dequeued over the array they were enqueued from, and the whole array is given back.
 */
module CryptoCyclecount {
  import opened Util
  import opened Mempools
  import opened Orders
  import opened Traffic
  import opened CryptoDevices

  /** The entries of each burst are different objects of the pool. */
  ghost predicate DistinctPerBurst(ids: seq<Obj>, burst: nat, size: nat)
    requires burst > 0
  {
    && (forall i :: 0 <= i < |ids| ==> ids[i] < size)
    && forall i, j :: 0 <= i < j < |ids| && i / burst == j / burst ==> ids[i] != ids[j]
  }

  lemma NoBurst(burst: nat, size: nat)
    requires burst > 0
    ensures DistinctPerBurst([], burst, size)
  {
  }

  lemma OneMoreBurst(ids: seq<Obj>, more: seq<Obj>, k: nat, burst: nat, size: nat)
    requires burst > 0 && DistinctPerBurst(ids, burst, size) && |ids| == k * burst && |more| <= burst
    requires NoDup(more) && forall i :: 0 <= i < |more| ==> more[i] < size
    ensures DistinctPerBurst(ids + more, burst, size)
  {
    var all := ids + more;
    forall i, j | 0 <= i < j < |all| && i / burst == j / burst ensures all[i] != all[j] {
      if j >= |ids| {
        DivUnique(j, k, j - |ids|, burst);
        assert i == (i / burst) * burst + i % burst;
      }
    }
  }

  class CyclecountTest {
    const pool: Mempool
    const dev: CryptoDevice
    /** nb_descriptors entries. */
    const ops: array<Obj>
    const totalOps: nat

    var opsEnqd: nat
    var opsDeqd: nat

    constructor (pool: Mempool, dev: CryptoDevice, nbDescriptors: nat, totalOps: nat)
      ensures this.pool == pool && this.dev == dev && this.totalOps == totalOps
      ensures ops.Length == nbDescriptors
    {
      this.pool, this.dev, this.totalOps := pool, dev, totalOps;
      ops := new Obj[nbDescriptors](_ => 0);
      opsEnqd, opsDeqd := 0, 0;
    }

    ghost predicate Whole()
      reads pool`free, dev
    {
      multiset(pool.free) == pool.Objects() && dev.inflight == [] && dev.Valid()
    }

    /**
     * pmd_cyclecount_bench_ops: every burst of ops is taken and given back at once. The array
     * keeps the ops of each burst, which are different objects of the pool.
     */
    method BenchOps(curOp: nat, burst: nat) returns (ok: bool)
      requires multiset(pool.free) == pool.Objects() && burst > 0 && curOp <= totalOps
      modifies pool`free, ops
      ensures multiset(pool.free) == pool.Objects()
      ensures ok ==> DistinctPerBurst(ops[..Min(ops.Length, totalOps - curOp)], burst, pool.size)
      ensures pool.size >= ops.Length ==> ok
    {
      hide DistinctPerBurst;
      var needed := Min(ops.Length, totalOps - curOp);
      var cur := 0;
      ok := true;
      ghost var k := 0;
      NoBurst(burst, pool.size);
      assert ops[..0] == [];
      while cur < needed
        invariant ok && 0 <= cur == k * burst && multiset(pool.free) == pool.Objects()
        invariant DistinctPerBurst(ops[..Min(cur, needed)], burst, pool.size)
      {
        ok := BenchBurst(cur, Min(needed - cur, burst), k, burst);
        if !ok {
          return;
        }
        NextMultiple(k, burst);
        cur := cur + burst;
        k := k + 1;
      }
    }

    /** One burst of ops: behind those of the bursts before, and back in the pool. */
    method BenchBurst(cur: nat, n: nat, ghost k: nat, burst: nat) returns (ok: bool)
      requires multiset(pool.free) == pool.Objects() && cur + n <= ops.Length
      requires cur == k * burst && n <= burst && burst > 0
      requires DistinctPerBurst(ops[..cur], burst, pool.size)
      modifies pool`free, ops
      ensures multiset(pool.free) == pool.Objects()
      ensures ok ==> DistinctPerBurst(ops[..cur + n], burst, pool.size)
      ensures pool.size >= n ==> ok
    {
      hide DistinctPerBurst;
      ghost var before := ops[..cur];
      SameSize(pool.free, Range(0, pool.size));
      ok := pool.GetBulk(ops, cur, n);
      if !ok {
        return;
      }
      assert ops[..cur + n] == before + ops[cur..cur + n];
      TakenFromPool(pool.free, ops[cur..cur + n], pool.size);
      OneMoreBurst(before, ops[cur..cur + n], k, burst, pool.size);
      pool.PutBulk(ops, cur, n);
    }

    /** pmd_cyclecount_build_ops: the ops of an iteration, taken burst by burst. */
    method BuildOps(needed: nat, burst: nat) returns (ok: bool)
      requires multiset(pool.free) == pool.Objects() && needed <= ops.Length && burst > 0
      modifies pool`free, ops
      ensures ok ==> multiset(pool.free) + multiset(ops[..needed]) == pool.Objects()
      ensures pool.size >= needed ==> ok
    {
      var cur := 0;
      ok := true;
      assert ops[..0] == [];
      SameSize(pool.free, Range(0, pool.size));
      while cur < needed
        invariant ok && 0 <= cur
        invariant var n := Min(cur, needed);
                  && multiset(pool.free) + multiset(ops[..n]) == pool.Objects() && |pool.free| + n == pool.size
      {
        ok := BuildBurst(cur, Min(needed - cur, burst));
        if !ok {
          return;
        }
        cur := cur + burst;
      }
    }

    /** The ops of one burst, behind those already built. */
    method BuildBurst(cur: nat, n: nat) returns (ok: bool)
      requires cur + n <= ops.Length
      modifies pool`free, ops
      ensures ok <==> n <= |old(pool.free)|
      ensures ok ==> |pool.free| == |old(pool.free)| - n
      ensures ok ==>
        multiset(pool.free) + multiset(ops[..cur + n]) == multiset(old(pool.free)) + multiset(old(ops[..cur]))
    {
      ghost var built := ops[..cur];
      ok := pool.GetBulk(ops, cur, n);
      if !ok {
        return;
      }
      ghost var taken := ops[cur..cur + n];
      assert ops[..cur + n] == built + taken;
      assert multiset(pool.free) + multiset(built + taken) == multiset(pool.free) + multiset(taken) + multiset(built);
    }

    /**
     * pmd_cyclecount_bench_enq: the result is the number of ops in the device, also when the
     * device takes nothing any more; the ops it did not take stay behind them.
     */
    method BenchEnq(needed: nat, burst: nat, ghost c: seq<Call>, ghost given: nat) returns (enqd: nat)
      requires given <= totalOps && needed == Min(ops.Length, totalOps - given)
      requires Turning(c, dev.calls, totalOps, ops.Length, burst, given, given, true)
      requires needed <= ops.Length && burst > 0 && dev.inflight == [] && dev.Valid()
      modifies this`opsEnqd, dev
      ensures dev.Since(old(dev.accepted), old(dev.returned), enqd, 0)
      ensures enqd <= needed && dev.inflight == ops[..enqd]
      ensures opsEnqd == old(opsEnqd) + enqd
      ensures Turning(c, dev.calls, totalOps, ops.Length, burst, given + enqd, given, true)
      ensures dev.stalls <= old(dev.stalls) && (enqd < needed ==> dev.stalls < old(dev.stalls))
    {
      hide Turning, CryptoDevice.Valid;
      enqd := 0;
      ghost var filled := true;
      while enqd < needed
        invariant Turning(c, dev.calls, totalOps, ops.Length, burst, given + enqd, given, filled)
        invariant filled <==> enqd == 0 || enqd == needed
        invariant enqd <= needed && dev.inflight == ops[..enqd]
        invariant dev.Since(old(dev.accepted), old(dev.returned), enqd, 0)
        invariant opsEnqd == old(opsEnqd) + enqd && dev.stalls <= old(dev.stalls)
      {
        ghost var calls := dev.calls;
        var burstEnqd := FillMore(enqd, Min(needed - enqd, burst));
        TurnEnq(c, calls, totalOps, ops.Length, burst, given + enqd, given, filled, burstEnqd);
        filled := burstEnqd == 0 || enqd + burstEnqd == needed;
        if burstEnqd == 0 {
          return;
        }
        opsEnqd := opsEnqd + burstEnqd;
        enqd := enqd + burstEnqd;
      }
    }

    /** One enqueue call of the filling loop: the prefix of ops in the device grows. */
    method FillMore(enqd: nat, n: nat) returns (k: nat)
      requires enqd + n <= ops.Length && dev.Valid() && dev.inflight == ops[..enqd]
      modifies dev
      ensures k <= n && dev.inflight == ops[..enqd + k] && dev.calls == old(dev.calls) + [Enq(n, k)]
      ensures dev.Since(old(dev.accepted), old(dev.returned), k, 0)
      ensures dev.stalls <= old(dev.stalls) && (k == 0 && n > 0 ==> dev.stalls < old(dev.stalls))
    {
      k := dev.EnqueueBurst(ops, enqd, n);
      assert ops[..enqd + k] == ops[..enqd] + ops[enqd..enqd + k];
    }

    /** pmd_cyclecount_bench_deq: the ops come back over the entries they left, in any order. */
    method BenchDeq(n: nat, burst: nat, ghost c: seq<Call>, ghost given: nat)
      requires Turning(c, dev.calls, totalOps, ops.Length, burst, given + n, given, true)
      requires n <= ops.Length && burst > 0 && |dev.inflight| == n && dev.Valid()
      modifies this`opsDeqd, dev, ops
      ensures dev.Since(old(dev.accepted), old(dev.returned), 0, n)
      ensures dev.inflight == [] && dev.stalls <= old(dev.stalls)
      ensures multiset(ops[..n]) == multiset(old(dev.inflight)) && ops[n..] == old(ops[n..])
      ensures opsDeqd == old(opsDeqd) + n
      ensures Turning(c, dev.calls, totalOps, ops.Length, burst, given + n, given + n, true)
    {
      hide Turning;
      var cur := 0;
      assert ops[..0] == [];
      while cur < n
        invariant cur <= n && |dev.inflight| == n - cur
        invariant Turning(c, dev.calls, totalOps, ops.Length, burst, given + n, given + cur, true)
        invariant multiset(ops[..cur]) + multiset(dev.inflight) == multiset(old(dev.inflight))
        invariant ops[n..] == old(ops[n..])
        invariant dev.Since(old(dev.accepted), old(dev.returned), 0, cur)
        invariant opsDeqd == old(opsDeqd) + cur && dev.stalls <= old(dev.stalls)
        decreases n - cur, dev.stalls
      {
        ghost var calls := dev.calls;
        var deqd := TakeOver(cur, n, burst);
        TurnDeq(c, calls, totalOps, ops.Length, burst, given + n, given + cur, deqd);
        opsDeqd := opsDeqd + deqd;
        cur := cur + deqd;
      }
      assert ops[..cur] == ops[..n];
    }

    /** One dequeue call of the draining loop: the prefix of returned ops grows. */
    method TakeOver(cur: nat, n: nat, burst: nat) returns (deqd: nat)
      requires cur < n <= ops.Length && burst > 0 && |dev.inflight| == n - cur && dev.Valid()
      modifies dev, ops
      ensures dev.Since(old(dev.accepted), old(dev.returned), 0, deqd)
      ensures dev.calls == old(dev.calls) + [Deq(Min(burst, n - cur), deqd)]
      ensures cur + deqd <= n && |dev.inflight| == n - cur - deqd
      ensures multiset(ops[..cur + deqd]) + multiset(dev.inflight)
           == multiset(old(ops[..cur])) + multiset(old(dev.inflight))
      ensures ops[n..] == old(ops[n..])
      ensures dev.stalls <= old(dev.stalls) && (deqd == 0 ==> dev.stalls < old(dev.stalls))
    {
      ghost var before, behind := ops[..cur], ops[n..];
      ghost var all := ops[..];
      deqd := dev.DequeueBurst(ops, cur, Min(n - cur, burst));
      ghost var got := ops[cur..cur + deqd];
      assert ops[..cur + deqd] == before + got;
      assert multiset(before + got) + multiset(dev.inflight)
          == multiset(before) + (multiset(got) + multiset(dev.inflight));
      forall k | n <= k < ops.Length ensures ops[k] == all[k] {
        assert ops[k] == ops[cur + deqd..][k - cur - deqd];
        assert all[k] == all[cur + deqd..][k - cur - deqd];
      }
      assert ops[n..] == all[n..];
    }

    /**
     * Filling the device and draining it: what is dequeued over the array is a permutation of
     * what was enqueued from it, and the ops that were not enqueued stay behind.
     */
    method FillAndDrain(n: nat, burst: nat, ghost c: seq<Call>, ghost given: nat) returns (done: nat)
      requires given <= totalOps && n == Min(ops.Length, totalOps - given)
      requires Turning(c, dev.calls, totalOps, ops.Length, burst, given, given, true)
      requires n <= ops.Length && burst > 0 && dev.inflight == [] && dev.Valid()
      modifies this`opsEnqd, this`opsDeqd, dev, ops
      ensures dev.Since(old(dev.accepted), old(dev.returned), done, done)
      ensures Turning(c, dev.calls, totalOps, ops.Length, burst, given + done, given + done, true)
      ensures done <= n && dev.inflight == [] && multiset(ops[..n]) == multiset(old(ops[..n]))
      ensures opsEnqd == old(opsEnqd) + done && opsDeqd == old(opsDeqd) + done
      ensures dev.stalls <= old(dev.stalls) && (done == 0 && n > 0 ==> dev.stalls < old(dev.stalls))
    {
      hide Turning;
      ghost var built, rest := ops[..n], ops[..];
      done := BenchEnq(n, burst, c, given);
      BenchDeq(done, burst, c, given);
      SamePrefix(rest, ops[..], done, n);
      assert rest[..done] == old(ops[..done]) && rest[..n] == built;
      assert ops[..][..done] == ops[..done] && ops[..][..n] == ops[..n] && ops[..][done..] == ops[done..];
    }

    static lemma SamePrefix(before: seq<Obj>, after: seq<Obj>, k: nat, n: nat)
      requires k <= n <= |before| == |after|
      requires multiset(after[..k]) == multiset(before[..k]) && after[k..] == before[k..]
      ensures multiset(after[..n]) == multiset(before[..n])
    {
      assert after[..n] == after[..k] + after[k..][..n - k];
      assert before[..n] == before[..k] + before[k..][..n - k];
    }

    /** One iteration of the benchmarking loop: giving back the whole array restores the pool. */
    method Iterate(curOp: nat, burst: nat, ghost c: seq<Call>) returns (ok: bool, done: nat)
      requires Turning(c, dev.calls, totalOps, ops.Length, burst, curOp, curOp, true)
      requires Whole() && burst > 0 && curOp < totalOps && ops.Length > 0
      modifies this`opsEnqd, this`opsDeqd, pool`free, dev, ops
      ensures ok ==> Whole() && curOp + done <= totalOps
      ensures ok ==> opsEnqd == old(opsEnqd) + done && opsDeqd == old(opsDeqd) + done
      ensures ok ==> dev.Since(old(dev.accepted), old(dev.returned), done, done)
      ensures ok ==> Turning(c, dev.calls, totalOps, ops.Length, burst, curOp + done, curOp + done, true)
      ensures ok && done == 0 ==> dev.stalls < old(dev.stalls)
      ensures dev.stalls <= old(dev.stalls)
      ensures pool.size >= ops.Length ==> ok
    {
      hide Turning;
      done := 0;
      var opsAllocd := Min(ops.Length, totalOps - curOp);
      ok := BuildOps(opsAllocd, burst);
      if !ok {
        return;
      }
      ghost var kept := pool.free;
      done := FillAndDrain(opsAllocd, burst, c, curOp);
      pool.PutBulk(ops, 0, opsAllocd);
      assert ops[0..0 + opsAllocd] == ops[..opsAllocd];
      assert multiset(pool.free) == multiset(kept) + multiset(ops[..opsAllocd]);
    }

    /**
     * pmd_cyclecount_bench_burst_sz: the counters say how many ops the device has accepted and
     * returned. The calls fill and empty the device in turns, burst by burst.
     */
    method BenchBurstSz(burst: nat) returns (ok: bool)
      requires Whole() && burst > 0 && ops.Length > 0
      modifies this`opsEnqd, this`opsDeqd, pool`free, dev, ops
      ensures ok ==> Whole() && opsEnqd == opsDeqd == totalOps
      ensures ok ==> dev.Exercised(old(dev.accepted), old(dev.returned), totalOps)
      ensures ok ==> Turning(old(dev.calls), dev.calls, totalOps, ops.Length, burst, totalOps, totalOps, true)
      ensures pool.size >= ops.Length ==> ok
    {
      hide CryptoDevice.Valid, DistinctPerBurst, Turning;
      dev.NothingInside();
      ghost var c := dev.calls;
      TurningStart(c, totalOps, ops.Length, burst);
      opsEnqd, opsDeqd, ok := 0, 0, true;
      var curOp := 0;
      while curOp < totalOps
        invariant ok && Whole() && 0 <= curOp && opsEnqd == opsDeqd == 0
        invariant dev.Since(old(dev.accepted), old(dev.returned), 0, 0) && dev.calls == c
      {
        ok := BenchOps(curOp, burst);
        if !ok {
          return;
        }
        curOp := curOp + ops.Length;
      }
      curOp := 0;
      while curOp < totalOps
        invariant ok && Whole() && 0 <= curOp <= totalOps && opsEnqd == opsDeqd == curOp
        invariant dev.Since(old(dev.accepted), old(dev.returned), curOp, curOp)
        invariant Turning(c, dev.calls, totalOps, ops.Length, burst, curOp, curOp, true)
        decreases totalOps - curOp, dev.stalls
      {
        ghost var a, r := dev.accepted, dev.returned;
        var done;
        ok, done := Iterate(curOp, burst, c);
        if !ok {
          return;
        }
        dev.SinceMore(old(dev.accepted), old(dev.returned), a, r, curOp, curOp, done);
        curOp := curOp + done;
      }
      dev.AllBack(old(dev.accepted), old(dev.returned), totalOps);
    }

    /**
     * cperf_pmd_cyclecount_test_runner: one run after the other for the burst sizes asked for, the
     * first of which comes twice, as the warm-up run.
     */
    method Run(bursts: seq<nat>) returns (ok: bool, ghost runs: seq<seq<Call>>)
      requires Whole() && ops.Length > 0 && forall i :: 0 <= i < |bursts| ==> bursts[i] > 0
      modifies this`opsEnqd, this`opsDeqd, pool`free, dev, ops
      ensures ok ==> Whole() && dev.Exercised(old(dev.accepted), old(dev.returned), |bursts| * totalOps)
      ensures ok && bursts != [] ==> opsEnqd == opsDeqd == totalOps
      ensures ok ==> dev.calls == old(dev.calls) + Concat(runs) && TurnsOf(runs, totalOps, ops.Length, bursts)
      ensures pool.size >= ops.Length ==> ok
    {
      hide CryptoDevice.Valid, Turning, TurnsOf, Concat;
      dev.NothingInside();
      ok, runs := true, [];
      NoTurns(totalOps, ops.Length);
      assert bursts[..0] == [];
      ghost var total := 0;
      for i := 0 to |bursts|
        invariant ok && Whole() && total == i * totalOps
        invariant dev.Since(old(dev.accepted), old(dev.returned), total, total)
        invariant i > 0 ==> opsEnqd == opsDeqd == totalOps
        invariant dev.calls == old(dev.calls) + Concat(runs) && TurnsOf(runs, totalOps, ops.Length, bursts[..i])
      {
        ghost var a, r, c := dev.accepted, dev.returned, dev.calls;
        ok := BenchBurstSz(bursts[i]);
        if !ok {
          return;
        }
        dev.SinceMore(old(dev.accepted), old(dev.returned), a, r, total, total, totalOps);
        total := total + totalOps;
        NextMultiple(i, totalOps);
        runs := OneMoreInTurns(old(dev.calls), c, dev.calls, runs, totalOps, ops.Length, bursts, i);
      }
      assert bursts[..|bursts|] == bursts;
      dev.AllBack(old(dev.accepted), old(dev.returned), total);
    }
  }
}
