/**
 * The throughput test of test-crypto-perf (cperf_test_throughput.c). New ops are written in
 * front of the ops the device did not take; those are moved only when the burst shrinks.
 */
module CryptoThroughput {
  import opened Util
  import opened Mempools
  import opened Orders
  import opened Traffic
  import opened CryptoDevices

  class ThroughputTest {
    const pool: Mempool
    const dev: CryptoDevice
    /** Both of max_burst_size entries. */
    const ops: array<Obj>
    const processed: array<Obj>
    const totalOps: nat

    constructor (pool: Mempool, dev: CryptoDevice, maxBurst: nat, totalOps: nat)
      ensures this.pool == pool && this.dev == dev && this.totalOps == totalOps
      ensures ops.Length == processed.Length == maxBurst && ops != processed
    {
      this.pool, this.dev, this.totalOps := pool, dev, totalOps;
      ops := new Obj[maxBurst](_ => 0);
      processed := new Obj[maxBurst](_ => 0);
    }

    /** All ops are in the pool. */
    ghost predicate Whole()
      reads pool`free, dev
    {
      multiset(pool.free) == pool.Objects() && dev.inflight == [] && dev.Valid()
    }

    /** Between two rounds: `unused` ops the device did not take wait at ops[enqd..]. */
    ghost predicate Between(burst: nat, enqd: nat, unused: nat, enqdTotal: nat, deqdTotal: nat)
      reads pool`free, dev, ops
    {
      && ops != processed && 0 < burst <= ops.Length == processed.Length
      && enqdTotal <= totalOps && deqdTotal + |dev.inflight| == enqdTotal && dev.Valid()
      && enqd <= enqdTotal
      // the last burst was as large as the burst size and the ops left allowed
      && (enqd + unused == Min(burst, totalOps - (enqdTotal - enqd)) || enqd == unused == enqdTotal == 0)
      && AllThere(pool, ops[enqd..enqd + unused], dev.inflight)
    }

    /** New ops in front, leftovers behind them. None is lost and none is overwritten. */
    method Stage(burst: nat, enqd: nat, unused: nat, enqdTotal: nat, deqdTotal: nat)
      returns (burstSz: nat, ok: bool)
      requires Between(burst, enqd, unused, enqdTotal, deqdTotal) && enqdTotal < totalOps
      modifies pool`free, ops
      ensures burstSz == Min(burst, totalOps - enqdTotal)
      ensures unused <= burstSz
      ensures enqd + unused > 0 ==> burstSz - unused <= enqd
      ensures ok <==> burstSz - unused <= |old(pool.free)|
      ensures ok ==> AllThere(pool, ops[..burstSz], dev.inflight)
      ensures ok ==> ops[burstSz - unused..burstSz] == old(ops[enqd..enqd + unused])
    {
      hide AllThere;
      burstSz := if enqdTotal + burst <= totalOps then burst else totalOps - enqdTotal;
      var needed: nat := burstSz - unused;
      ok := Draw(needed, enqd, unused);
      if !ok {
        return;
      }
      ghost var drawn, left := ops[..needed], ops[enqd..enqd + unused];
      if enqd > needed {
        MemMove(ops, needed, enqd, unused);
      }
      assert ops[..burstSz] == drawn + left;
      assert ops[needed..burstSz] == left;
    }

    /** The new ops of a burst. */
    method Draw(needed: nat, enqd: nat, unused: nat) returns (ok: bool)
      requires needed <= ops.Length && enqd + unused <= ops.Length && (needed <= enqd || unused == 0)
      requires AllThere(pool, ops[enqd..enqd + unused], dev.inflight)
      modifies pool`free, ops
      ensures ok <==> needed <= |old(pool.free)|
      ensures ok ==> ops[enqd..enqd + unused] == old(ops[enqd..enqd + unused])
      ensures ok ==> AllThere(pool, ops[..needed] + ops[enqd..enqd + unused], dev.inflight)
    {
      hide AllThere;
      ghost var left, free := ops[enqd..enqd + unused], multiset(pool.free);
      StillThere(pool, left, dev.inflight);
      ok := pool.GetBulk(ops, 0, needed);
      if !ok {
        return;
      }
      LeftoversIntact(old(ops[..]), ops[..], needed, enqd, unused);
      assert ops[0..0 + needed] == ops[..needed];
      DrawnThere(pool, free, ops[..needed], left, dev.inflight);
    }

    static lemma StillThere(pool: Mempool, left: seq<Obj>, flight: seq<Obj>)
      requires AllThere(pool, left, flight)
      ensures multiset(pool.free) + multiset(left) + multiset(flight) == pool.Objects()
    {
    }

    static lemma DrawnThere(pool: Mempool, free: multiset<Obj>, drawn: seq<Obj>, left: seq<Obj>, flight: seq<Obj>)
      requires free + multiset(left) + multiset(flight) == pool.Objects()
      requires multiset(pool.free) + multiset(drawn) == free
      ensures AllThere(pool, drawn + left, flight)
    {
      assert multiset(drawn + left) == multiset(drawn) + multiset(left);
    }

    static lemma LeftoversIntact(before: seq<Obj>, after: seq<Obj>, needed: nat, enqd: nat, unused: nat)
      requires |before| == |after| && needed <= |after| && enqd + unused <= |after|
      requires before[needed..] == after[needed..] && (needed <= enqd || unused == 0)
      ensures before[enqd..enqd + unused] == after[enqd..enqd + unused]
    {
      forall k | enqd <= k < enqd + unused ensures before[k] == after[k] {
        assert before[k] == before[needed..][k - needed];
      }
    }

    /** Takes finished ops from the device and gives them back to the pool. */
    method TakeBack(burst: nat, ghost staged: seq<Obj>) returns (deqd: nat)
      requires AllThere(pool, staged, dev.inflight) && burst <= processed.Length && dev.Valid()
      modifies pool`free, dev, processed
      ensures AllThere(pool, staged, dev.inflight) && deqd + |dev.inflight| == |old(dev.inflight)|
      ensures dev.Since(old(dev.accepted), old(dev.returned), 0, deqd)
      ensures dev.calls == old(dev.calls) + [Deq(burst, deqd)]
      ensures dev.stalls <= old(dev.stalls)
      ensures deqd == 0 && burst > 0 && old(dev.inflight) != [] ==> dev.stalls < old(dev.stalls)
    {
      deqd := dev.DequeueBurst(processed, 0, burst);
      if deqd > 0 {
        pool.PutBulk(processed, 0, deqd);
      }
    }

    /** One round of the enqueue loop. */
    method Round(burst: nat, enqd: nat, unused: nat, enqdTotal: nat, deqdTotal: nat, ghost c: seq<Call>)
      returns (ok: bool, enqd': nat, unused': nat, enqdTotal': nat, deqdTotal': nat)
      requires Between(burst, enqd, unused, enqdTotal, deqdTotal) && enqdTotal < totalOps
      requires Midway(c, dev.calls, totalOps, burst, enqdTotal, deqdTotal, true)
      modifies pool`free, dev, ops, processed
      ensures ok ==> Between(burst, enqd', unused', enqdTotal', deqdTotal')
      ensures ok ==> enqdTotal' == enqdTotal + enqd' && deqdTotal' >= deqdTotal
      ensures ok ==> Midway(c, dev.calls, totalOps, burst, enqdTotal', deqdTotal', true)
      ensures ok ==> dev.Since(old(dev.accepted), old(dev.returned), enqd', deqdTotal' - deqdTotal)
      ensures ok && enqd' == 0 ==> dev.stalls < old(dev.stalls)
      ensures pool.size >= totalOps ==> ok
    {
      hide AllThere, Midway;
      enqd', unused', enqdTotal', deqdTotal' := enqd, unused, enqdTotal, deqdTotal;
      Suffices(burst, enqd, unused, enqdTotal, deqdTotal);
      var burstSz;
      burstSz, ok := Stage(burst, enqd, unused, enqdTotal, deqdTotal);
      if !ok {
        return;
      }
      enqd' := Push(burstSz);
      MidwayEnq(c, old(dev.calls), totalOps, burst, enqdTotal, deqdTotal, enqd');
      unused' := burstSz - enqd';
      enqdTotal' := enqdTotal + enqd';
      ghost var calls := dev.calls;
      var deqd := TakeBack(burst, ops[enqd'..burstSz]);
      MidwayDeq(c, calls, totalOps, burst, enqdTotal', deqdTotal, false, deqd);
      deqdTotal' := deqdTotal + deqd;
      assert ops[enqd'..enqd' + unused'] == ops[enqd'..burstSz];
    }

    /** A pool of `totalOps` objects never runs dry. */
    lemma Suffices(burst: nat, enqd: nat, unused: nat, enqdTotal: nat, deqdTotal: nat)
      requires Between(burst, enqd, unused, enqdTotal, deqdTotal) && enqdTotal < totalOps
      ensures pool.size >= totalOps ==> Min(burst, totalOps - enqdTotal) - unused <= |pool.free|
    {
      Sizes(pool, ops[enqd..enqd + unused], dev.inflight);
    }

    /** The enqueue call: what the device does not take stays at the end of the burst. */
    method Push(burstSz: nat) returns (enqd: nat)
      requires 0 < burstSz <= ops.Length && AllThere(pool, ops[..burstSz], dev.inflight) && dev.Valid()
      modifies dev
      ensures dev.Since(old(dev.accepted), old(dev.returned), enqd, 0)
      ensures dev.calls == old(dev.calls) + [Enq(burstSz, enqd)]
      ensures enqd <= burstSz && AllThere(pool, ops[enqd..burstSz], dev.inflight)
      ensures |dev.inflight| == |old(dev.inflight)| + enqd
      ensures dev.stalls <= old(dev.stalls) && (enqd == 0 ==> dev.stalls < old(dev.stalls))
    {
      hide AllThere;
      ghost var flight := dev.inflight;
      enqd := dev.EnqueueBurst(ops, 0, burstSz);
      assert ops[..burstSz] == ops[0..0 + enqd] + ops[enqd..burstSz];
      PushedThere(pool, ops[0..0 + enqd], ops[enqd..burstSz], flight);
    }

    static lemma PushedThere(pool: Mempool, taken: seq<Obj>, left: seq<Obj>, flight: seq<Obj>)
      requires AllThere(pool, taken + left, flight)
      ensures AllThere(pool, left, flight + taken)
    {
      assert multiset(taken + left) == multiset(taken) + multiset(left);
      assert multiset(flight + taken) == multiset(flight) + multiset(taken);
    }

    /** "Dequeue any operations still in the crypto device". */
    method Drain(burst: nat, deqdTotal: nat, ghost c: seq<Call>) returns (deqdTotal': nat)
      requires Midway(c, dev.calls, totalOps, burst, totalOps, deqdTotal, true)
      requires 0 < burst <= processed.Length && deqdTotal + |dev.inflight| == totalOps
      requires AllThere(pool, [], dev.inflight) && dev.Valid()
      modifies pool`free, dev, processed
      ensures deqdTotal' == totalOps && Whole()
      ensures dev.Since(old(dev.accepted), old(dev.returned), 0, totalOps - deqdTotal)
      ensures Midway(c, dev.calls, totalOps, burst, totalOps, totalOps, true)
    {
      hide Midway;
      deqdTotal' := deqdTotal;
      while deqdTotal' < totalOps
        invariant deqdTotal <= deqdTotal' && deqdTotal' + |dev.inflight| == totalOps
        invariant AllThere(pool, [], dev.inflight)
        invariant Midway(c, dev.calls, totalOps, burst, totalOps, deqdTotal', true)
        invariant dev.Since(old(dev.accepted), old(dev.returned), 0, deqdTotal' - deqdTotal)
        decreases totalOps - deqdTotal', dev.stalls
      {
        ghost var calls := dev.calls;
        var deqd := TakeBack(burst, []);
        MidwayDeq(c, calls, totalOps, burst, totalOps, deqdTotal', true, deqd);
        deqdTotal' := deqdTotal' + deqd;
      }
    }

    lemma Starts(burst: nat)
      requires Whole() && ops != processed && 0 < burst <= ops.Length == processed.Length
      ensures Between(burst, 0, 0, 0, 0) && dev.Since(dev.accepted, dev.returned, 0, 0)
    {
      assert ops[0..0] == [];
    }

    /** When all ops have been handed over none is left of the last burst. */
    lemma NothingStaged(burst: nat, enqd: nat, unused: nat, deqdTotal: nat)
      requires Between(burst, enqd, unused, totalOps, deqdTotal)
      ensures deqdTotal + |dev.inflight| == totalOps && AllThere(pool, [], dev.inflight) && dev.Valid()
    {
      assert ops[enqd..enqd + unused] == [];
    }

    /**
     * The run for one burst size. It fails only when the pool is too small; otherwise the device
     * accepts `totalOps` ops and returns the same ops, which are all back in the pool. Every call
     * asks for a burst of that size, or for what is left.
     */
    method RunBurstSize(burst: nat) returns (ok: bool, enqdTotal: nat, deqdTotal: nat)
      requires Whole() && ops != processed && 0 < burst <= ops.Length == processed.Length
      modifies pool`free, dev, ops, processed
      ensures ok ==> enqdTotal == deqdTotal == totalOps && Whole()
      ensures ok ==> dev.Exercised(old(dev.accepted), old(dev.returned), totalOps)
      ensures ok ==> Midway(old(dev.calls), dev.calls, totalOps, burst, totalOps, totalOps, true)
      ensures pool.size >= totalOps ==> ok
    {
      var enqd: nat, unused: nat := 0, 0;
      ok, enqdTotal, deqdTotal := true, 0, 0;
      Starts(burst);
      hide Midway, AllThere, Balanced, Between, CryptoDevice.Valid, CryptoDevice.Since;
      ghost var c := dev.calls;
      MidwayStart(c, totalOps, burst);
      while enqdTotal < totalOps
        invariant Midway(c, dev.calls, totalOps, burst, enqdTotal, deqdTotal, true)
        invariant ok && Between(burst, enqd, unused, enqdTotal, deqdTotal)
        invariant dev.Since(old(dev.accepted), old(dev.returned), enqdTotal, deqdTotal)
        decreases totalOps - enqdTotal, dev.stalls
      {
        ok, enqd, unused, enqdTotal, deqdTotal := Round(burst, enqd, unused, enqdTotal, deqdTotal, c);
        if !ok {
          return;
        }
      }
      NothingStaged(burst, enqd, unused, deqdTotal);
      deqdTotal := Drain(burst, deqdTotal, c);
      dev.AllBack(old(dev.accepted), old(dev.returned), totalOps);
    }

    /**
     * cperf_throughput_test_runner: one run after the other for the burst sizes asked for, each
     * with `totalOps` ops.
     */
    method Run(bursts: seq<nat>) returns (ok: bool, ghost runs: seq<seq<Call>>)
      requires Whole() && ops != processed && ops.Length == processed.Length
      requires forall i :: 0 <= i < |bursts| ==> 0 < bursts[i] <= ops.Length
      modifies pool`free, dev, ops, processed
      ensures ok ==> Whole() && dev.Exercised(old(dev.accepted), old(dev.returned), |bursts| * totalOps)
      ensures ok ==> dev.calls == old(dev.calls) + Concat(runs) && RunsOf(runs, totalOps, bursts)
      ensures pool.size >= totalOps ==> ok
    {
      hide CryptoDevice.Valid, Midway, Concat, RunsOf;
      dev.NothingInside();
      ok, runs := true, [];
      NoRuns(totalOps);
      assert bursts[..0] == [];
      ghost var total := 0;
      for i := 0 to |bursts|
        invariant ok && Whole() && total == i * totalOps
        invariant dev.Since(old(dev.accepted), old(dev.returned), total, total)
        invariant dev.calls == old(dev.calls) + Concat(runs) && RunsOf(runs, totalOps, bursts[..i])
      {
        ghost var a, r, c := dev.accepted, dev.returned, dev.calls;
        var enqd, deqd;
        ok, enqd, deqd := RunBurstSize(bursts[i]);
        if !ok {
          return;
        }
        dev.SinceMore(old(dev.accepted), old(dev.returned), a, r, total, total, totalOps);
        total := total + totalOps;
        NextMultiple(i, totalOps);
        runs := OneRunMore(old(dev.calls), c, dev.calls, runs, totalOps, bursts, i);
      }
      assert bursts[..|bursts|] == bursts;
      dev.AllBack(old(dev.accepted), old(dev.returned), total);
    }
  }
}
