/** The cyclecount test of test-compress-perf (comp_perf_test_cyclecount.c). */
module CompCyclecount {
  import opened Util
  import opened Mempools
  import opened Mbufs
  import opened CompDevices
  import opened CompBurst
  import opened CompVerify
  import opened CompPerf

  /** The chains from `lo` to `hi` have been reset, the others are as they were. */
  ghost predicate ResetBetween(dst: seq<Chain>, dst': seq<Chain>, lo: nat, hi: nat, outSegSz: nat)
  {
    && |dst'| == |dst|
    && (forall i :: 0 <= i < |dst| && lo <= i < hi ==> dst'[i] == ResetOf(dst[i], outSegSz))
    && (forall i :: 0 <= i < |dst| && !(lo <= i < hi) ==> dst'[i] == dst[i])
  }

  /** Bursts of resets one after the other, also over chains that were reset before. */
  lemma ResetOn(dst: seq<Chain>, again: seq<Chain>, mid: seq<Chain>, next: seq<Chain>, k: nat, n: nat, outSegSz: nat)
    requires again == dst || ResetBetween(dst, again, 0, |dst|, outSegSz)
    requires ResetBetween(again, mid, 0, k, outSegSz) && ResetBetween(mid, next, k, n, outSegSz) && k <= n
    ensures ResetBetween(again, next, 0, n, outSegSz)
    ensures n == |dst| ==> ResetBetween(dst, next, 0, n, outSegSz)
  {
    forall c: Chain ensures ResetOf(ResetOf(c, outSegSz), outSegSz) == ResetOf(c, outSegSz) {
      assert ResetSegs(ResetSegs(c.segs)) == ResetSegs(c.segs);
    }
  }

  lemma ResetSizes(dst: seq<Chain>, dst': seq<Chain>, lo: nat, hi: nat, room: nat, outSegSz: nat)
    requires ResetBetween(dst, dst', lo, hi, outSegSz) && WellSized(dst, room)
    ensures WellSized(dst', room) && SegCounts(dst') == SegCounts(dst)
    ensures forall i :: 0 <= i < |dst| && lo <= i < hi ==> IsReset(dst'[i], outSegSz)
  {
    assert SegCounts(dst') == SegCounts(dst);
  }

  /**
   * cperf_cyclecount_op_setup: the cost of taking ops from the pool, setting them up and giving
   * them back is measured without the device. `iters` is num_iter. The ops are all back at the
   * end, and every output chain has been reset.
   */
  method OpSetup(b: Burst, iters: nat) returns (ok: bool)
    requires b.Shape() && Idle(b) && WellSized(b.dst[..], b.roomSz)
    modifies b.pool`free, b.ops, b.opMem, b.dst
    ensures ok && Idle(b) && WellSized(b.dst[..], b.roomSz)
    ensures SegCounts(b.dst[..]) == old(SegCounts(b.dst[..]))
    ensures ResetBetween(old(b.dst[..]), b.dst[..], 0, if iters > 0 then b.totalBufs else 0, b.outSegSz)
  {
    hide WellSized, IsReset, ResetBetween;
    ghost var first := b.dst[..];
    ok := true;
    NoReset(first, b.outSegSz);
    var iter := 0;
    while iter < iters
      invariant 0 <= iter <= iters && ok && Idle(b) && WellSized(b.dst[..], b.roomSz)
      invariant ResetBetween(first, b.dst[..], 0, if iter > 0 then b.totalBufs else 0, b.outSegSz)
      invariant iter == 0 ==> b.dst[..] == first
    {
      ok := SetUpAll(b, first);
      if !ok {
        return;
      }
      iter := iter + 1;
    }
    ResetSizes(first, b.dst[..], 0, if iters > 0 then b.totalBufs else 0, b.roomSz, b.outSegSz);
  }

  /** One iteration of the set-up measurement; `first` are the chains before all of them. */
  method SetUpAll(b: Burst, ghost first: seq<Chain>) returns (ok: bool)
    requires b.Shape() && Idle(b) && WellSized(b.dst[..], b.roomSz)
    requires b.dst[..] == first || ResetBetween(first, b.dst[..], 0, |first|, b.outSegSz)
    requires |first| == b.totalBufs
    modifies b.pool`free, b.ops, b.opMem, b.dst
    ensures ok && Idle(b) && WellSized(b.dst[..], b.roomSz)
    ensures ResetBetween(first, b.dst[..], 0, b.totalBufs, b.outSegSz)
  {
    hide WellSized, IsReset, ResetBetween;
    ghost var again := b.dst[..];
    var remaining, totalEnq := b.totalBufs, 0;
    NoReset(again, b.outSegSz);
    ok := true;
    if remaining == 0 {
      NoReset(first, b.outSegSz);
    }
    while remaining > 0
      invariant remaining + totalEnq == b.totalBufs && remaining >= 0 && ok
      invariant Idle(b) && WellSized(b.dst[..], b.roomSz)
      invariant ResetBetween(again, b.dst[..], 0, totalEnq, b.outSegSz)
      invariant remaining == 0 ==> ResetBetween(first, b.dst[..], 0, totalEnq, b.outSegSz)
      decreases remaining
    {
      ghost var mid := b.dst[..];
      var numOps := Min(remaining, b.burstSz);
      ok := SetUpBurst(b, numOps, totalEnq);
      if !ok {
        return;
      }
      ResetOn(first, again, mid, b.dst[..], totalEnq, totalEnq + numOps, b.outSegSz);
      remaining := remaining - numOps;
      totalEnq := totalEnq + numOps;
    }
  }

  lemma NoReset(dst: seq<Chain>, outSegSz: nat)
    ensures ResetBetween(dst, dst, 0, 0, outSegSz)
  {
  }

  /**
   * One burst of the set-up measurement: `numOps` different ops are set up for the next buffers
   * and go back to the pool.
   */
  method SetUpBurst(b: Burst, numOps: nat, totalEnq: nat) returns (ok: bool)
    requires b.Shape() && Idle(b) && WellSized(b.dst[..], b.roomSz)
    requires 0 < numOps <= b.burstSz && totalEnq + numOps <= b.totalBufs
    modifies b.pool`free, b.ops, b.opMem, b.dst
    ensures ok && Idle(b) && WellSized(b.dst[..], b.roomSz)
    ensures ResetBetween(old(b.dst[..]), b.dst[..], totalEnq, totalEnq + numOps, b.outSegSz)
    ensures NoDup(b.ops[..numOps]) && multiset(b.ops[..numOps]) <= multiset(b.pool.free)
    ensures StagedFrom(b.ops[..numOps], b.opMem[..], totalEnq, b.src[..], b.xform)
  {
    ghost var first, free := b.dst[..], b.pool.free;
    SameSize(free, Range(0, b.pool.size));
    ok := b.pool.GetBulk(b.ops, 0, numOps);
    if !ok {
      return;
    }
    ghost var ids := b.ops[0..0 + numOps];
    assert ids == b.ops[..numOps];
    TakenFromPool(b.pool.free, ids, b.pool.size);
    SetUpAt(b, numOps, totalEnq);
    ResetSizes(first, b.dst[..], totalEnq, totalEnq + numOps, b.roomSz, b.outSegSz);
    b.pool.PutBulk(b.ops, 0, numOps);
  }

  /** The set-up of a burst of ops. */
  method SetUpAt(b: Burst, numOps: nat, totalEnq: nat)
    requires b.Shape() && numOps <= b.ops.Length && totalEnq + numOps <= b.totalBufs && NoDup(b.ops[..numOps])
    requires forall i :: 0 <= i < numOps ==> b.ops[..numOps][i] < b.pool.size
    modifies b.opMem, b.dst
    ensures ResetBetween(old(b.dst[..]), b.dst[..], totalEnq, totalEnq + numOps, b.outSegSz)
    ensures StagedFrom(b.ops[..numOps], b.opMem[..], totalEnq, b.src[..], b.xform)
  {
    hide StagedFrom;
    ghost var ids := b.ops[..numOps];
    NoneStaged(b.opMem[..], totalEnq, b.src[..], b.xform);
    assert ids[..0] == [];
    var i := 0;
    while i < numOps
      modifies b.opMem, b.dst
      invariant 0 <= i <= numOps
      invariant ResetBetween(old(b.dst[..]), b.dst[..], totalEnq, totalEnq + i, b.outSegSz)
      invariant StagedFrom(ids[..i], b.opMem[..], totalEnq, b.src[..], b.xform)
    {
      var bufId := totalEnq + i;
      assert b.ops[i] == ids[i];
      ghost var op := CompOp(bufId, bufId, b.src[bufId].pktLen, bufId, b.xform, NotProcessed, 0);
      StagedGrows(ids[..i], b.opMem[..], totalEnq, b.src[..], b.xform, ids[i], op);
      assert ids[..i + 1] == ids[..i] + [ids[i]];
      ghost var mem, dst := b.opMem[..], b.dst[..];
      b.opMem[b.ops[i]] := CompOp(bufId, bufId, b.src[bufId].pktLen, bufId, b.xform, NotProcessed, 0);
      b.dst[bufId] := ResetChain(b.dst[bufId], b.outSegSz);
      assert b.opMem[..] == mem[ids[i] := op];
      assert b.dst[..] == dst[bufId := ResetOf(dst[bufId], b.outSegSz)];
      i := i + 1;
    }
    assert ids[..i] == ids;
  }

  lemma NoneStaged(mem: seq<CompOp>, start: nat, src: seq<Chain>, xform: Xform)
    ensures StagedFrom([], mem, start, src, xform)
  {
  }

  /** main_loop. */
  method MainLoop(ver: VerifyCtx, xform: Xform) returns (exit: LoopExit)
    requires ver.Ready()
    requires AllReadable(ver.Src(xform)[..]) && WellSized(ver.Dst(xform)[..], ver.OutSegSz(xform))
    modifies ver.dev, ver.mem.opPool`free, ver.Dst(xform)
    ensures exit == Completed ==>
      && LoopDone(ver, xform, old(SegCounts(ver.Dst(xform)[..])))
      && Served(ver.dev, old(LogsOf(ver.dev)), ver.mem.totalBufs, ver.td.burstSz, true, ver.td.numIter)
    ensures Reasons(exit, ver.dev, xform, ver.Src(xform)[..], old(SegCounts(ver.Dst(xform)[..])),
                    ver.OutSegSz(xform), LoopSegSz(ver, xform))
    ensures ver.dev.healthy ==>
      (exit == Completed <==>
         AlwaysFits(ver.dev, xform, ver.Src(xform)[..], old(SegCounts(ver.Dst(xform)[..])), LoopSegSz(ver, xform)))
  {
    hide AllReadable, WellSized, HasEnded, AlwaysFits, Reasons, SegCounts, Grown;
    var b := NewBurst(Cyclecount, ver, xform, ver.td.burstSz);
    var ok := OpSetup(b, ver.td.numIter);
    if !ok {
      return Failed;
    }
    exit := Iterations(b, ver.td.numIter);
  }
}
