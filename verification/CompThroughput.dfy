/** The throughput test of test-compress-perf (comp_perf_test_throughput.c). */
module CompThroughput {
  import opened Util
  import opened Mempools
  import opened Mbufs
  import opened CompDevices
  import opened CompBurst
  import opened CompVerify
  import opened CompPerf

  /** main_loop. */
  method MainLoop(ver: VerifyCtx, xform: Xform) returns (exit: LoopExit)
    requires ver.Ready()
    requires AllReadable(ver.Src(xform)[..]) && WellSized(ver.Dst(xform)[..], ver.OutSegSz(xform))
    modifies ver.dev, ver.mem.opPool`free, ver.Dst(xform)
    ensures exit == Completed ==>
      && LoopDone(ver, xform, old(SegCounts(ver.Dst(xform)[..])))
      && Served(ver.dev, old(LogsOf(ver.dev)), ver.mem.totalBufs, ver.td.burstSz, false, ver.td.numIter)
    ensures Reasons(exit, ver.dev, xform, ver.Src(xform)[..], old(SegCounts(ver.Dst(xform)[..])),
                    ver.OutSegSz(xform), LoopSegSz(ver, xform))
    ensures ver.dev.healthy ==>
      (exit == Completed <==>
         AlwaysFits(ver.dev, xform, ver.Src(xform)[..], old(SegCounts(ver.Dst(xform)[..])), LoopSegSz(ver, xform)))
  {
    hide AllReadable, WellSized, HasEnded, AlwaysFits, Reasons, SegCounts, Grown;
    var b := NewBurst(Throughput, ver, xform, ver.mem.totalBufs);
    exit := Iterations(b, ver.td.numIter);
  }
}
