/**
 * The runners of the throughput and cyclecount tests of test-compress-perf: the verification
 * first, then each loop twice, "discarding the first performance results".
 */
module CompRunner {
  import opened Util
  import opened Orders
  import opened Mempools
  import opened Mbufs
  import opened Traffic
  import opened CompDevices
  import opened CompCommon
  import opened CompBurst
  import opened CompVerify
  import opened CompPerf
  import CompThroughput
  import CompCyclecount

  /** Either test's main_loop. */
  method MainLoop(test: Test, ver: VerifyCtx, xform: Xform) returns (exit: LoopExit)
    requires ver.Ready()
    requires AllReadable(ver.Src(xform)[..]) && WellSized(ver.Dst(xform)[..], ver.OutSegSz(xform))
    modifies ver.dev, ver.mem.opPool`free, ver.Dst(xform)
    ensures exit == Completed ==>
      && LoopDone(ver, xform, old(SegCounts(ver.Dst(xform)[..])))
      && Served(ver.dev, old(LogsOf(ver.dev)), ver.mem.totalBufs, ver.td.burstSz, test == Cyclecount, ver.td.numIter)
    ensures Reasons(exit, ver.dev, xform, ver.Src(xform)[..], old(SegCounts(ver.Dst(xform)[..])),
                    ver.OutSegSz(xform), LoopSegSz(ver, xform))
    ensures ver.dev.healthy ==>
      (exit == Completed <==>
         AlwaysFits(ver.dev, xform, ver.Src(xform)[..], old(SegCounts(ver.Dst(xform)[..])), LoopSegSz(ver, xform)))
  {
    hide LoopDone, Reasons, AlwaysFits, AllReadable, WellSized;
    match test
    case Throughput => exit := CompThroughput.MainLoop(ver, xform);
    case Cyclecount => exit := CompCyclecount.MainLoop(ver, xform);
  }

  /** Two runs of a loop in which every op is going to succeed: only the device can spoil them. */
  method Twice(test: Test, ver: VerifyCtx, xform: Xform) returns (exit: LoopExit)
    requires ver.Ready()
    requires AllReadable(ver.Src(xform)[..]) && WellSized(ver.Dst(xform)[..], ver.OutSegSz(xform))
    requires AlwaysFits(ver.dev, xform, ver.Src(xform)[..], SegCounts(ver.Dst(xform)[..]), LoopSegSz(ver, xform))
    modifies ver.dev, ver.mem.opPool`free, ver.Dst(xform)
    ensures exit == Completed ==>
      && LoopDone(ver, xform, old(SegCounts(ver.Dst(xform)[..])))
      && Served(ver.dev, old(LogsOf(ver.dev)), ver.mem.totalBufs, ver.td.burstSz, test == Cyclecount,
                2 * ver.td.numIter)
    ensures exit in {Completed, Failed} && (ver.dev.healthy ==> exit == Completed)
  {
    hide LoopDone, Reasons, AlwaysFits, AllReadable, WellSized, SegCounts, CompDevice.Lossless, Grown;
    ghost var counts, total, n := SegCounts(ver.Dst(xform)[..]), 0, ver.mem.totalBufs;
    ServedNone(ver.dev.fifo, LogsOf(ver.dev), n, ver.td.burstSz, test == Cyclecount);
    exit := Completed;
    for i := 0 to 2
      invariant exit == Completed && ver.Ready()
      invariant WellSized(ver.Dst(xform)[..], ver.OutSegSz(xform)) && SegCounts(ver.Dst(xform)[..]) == counts
      invariant i > 0 ==> LoopDone(ver, xform, counts)
      invariant total == i * ver.td.numIter
      invariant Served(ver.dev, old(LogsOf(ver.dev)), n, ver.td.burstSz, test == Cyclecount, total)
    {
      ghost var l := LogsOf(ver.dev);
      exit := MainLoop(test, ver, xform);
      NoOther(exit, ver, xform, counts);
      if exit.Res() < 0 {
        return;
      }
      LoopDoneFacts(ver, xform, counts);
      ServedMore(ver.dev, old(LogsOf(ver.dev)), l, n, ver.td.burstSz, test == Cyclecount, total, ver.td.numIter);
      total := total + ver.td.numIter;
    }
  }

  lemma NoOther(exit: LoopExit, ver: VerifyCtx, xform: Xform, counts: seq<nat>)
    requires ver.td.Valid() && ver.mem.Valid(ver.td)
    requires Reasons(exit, ver.dev, xform, ver.Src(xform)[..], counts, ver.OutSegSz(xform), LoopSegSz(ver, xform))
    requires AlwaysFits(ver.dev, xform, ver.Src(xform)[..], counts, LoopSegSz(ver, xform))
    ensures exit in {Completed, Failed}
  {
    var room, segSz := ver.OutSegSz(xform), LoopSegSz(ver, xform);
    forall b | 0 <= b < ver.Src(xform).Length
      ensures Outcome(ver.dev, xform, ver.Src(xform)[..], counts, room, b) == Success
    {
      MulLe(segSz, room, counts[b]);
    }
  }

  lemma LoopDoneFacts(ver: VerifyCtx, xform: Xform, counts: seq<nat>)
    requires LoopDone(ver, xform, counts)
    ensures ver.Ready() && WellSized(ver.Dst(xform)[..], ver.OutSegSz(xform)) && SegCounts(ver.Dst(xform)[..]) == counts
    ensures LoopSegSz(ver, xform) == ver.OutSegSz(xform) ==> forall i :: 0 <= i < ver.mem.totalBufs ==>
      Finished(xform, ver.dev.inflate, ver.Src(xform)[i], ver.Dst(xform)[i])
  {
    hide HasEnded, Finished;
    if LoopSegSz(ver, xform) == ver.OutSegSz(xform) {
      forall i | 0 <= i < ver.mem.totalBufs
        ensures Finished(xform, ver.dev.inflate, ver.Src(xform)[i], ver.Dst(xform)[i])
      {
        EndedIsFinished(xform, ver.dev.inflate, ver.OutSegSz(xform), LoopSegSz(ver, xform),
                        ver.Src(xform)[i], ver.Dst(xform)[i]);
      }
    }
  }

  /** The compression loops of a performance test. */
  method CompressTwice(test: Test, ver: VerifyCtx) returns (exit: LoopExit)
    requires ver.Ready() && ver.mem.Loaded(ver.td) && ver.td.testOp != DecompressOnly
    requires AllChunksFit(ver.td, ver.dev)
    modifies ver.dev, ver.mem.opPool`free, ver.mem.compBufs
    ensures exit == Completed ==>
      && ver.Ready() && ver.mem.Loaded(ver.td) && StandFor(ver.dev.inflate, ver.mem.compBufs[..], Chunks(ver.td))
      && Served(ver.dev, old(LogsOf(ver.dev)), ver.mem.totalBufs, ver.td.burstSz, test == Cyclecount,
                2 * ver.td.numIter)
    ensures exit in {Completed, Failed} && (ver.dev.healthy ==> exit == Completed)
  {
    hide LoopDone, AlwaysFits, AllReadable, WellSized, SegCounts, Finished, AllChunksFit, Grown, Chunks;
    hide MemResources.Loaded, LoadedChains;
    ghost var comp, counts := ver.mem.compBufs[..], SegCounts(ver.mem.compBufs[..]);
    ver.IsLoaded();
    ver.ReadyToCompress();
    ver.OutcomesOfChunks();
    exit := Twice(test, ver, Compress);
    if exit == Completed {
      LoopDoneFacts(ver, Compress, counts);
      ver.StillLoaded(comp);
      ver.ChunksCompressed();
    }
  }

  /** The decompression loops of a performance test. */
  method DecompressTwice(test: Test, ver: VerifyCtx) returns (exit: LoopExit)
    requires ver.Ready() && ver.mem.Loaded(ver.td) && ver.td.testOp == CompressDecompress
    requires StandFor(ver.dev.inflate, ver.mem.compBufs[..], Chunks(ver.td))
    modifies ver.dev, ver.mem.opPool`free, ver.mem.decompBufs
    ensures exit == Completed ==>
      && ver.Ready() && ver.mem.Loaded(ver.td) && StandFor(ver.dev.inflate, ver.mem.compBufs[..], Chunks(ver.td))
      && Served(ver.dev, old(LogsOf(ver.dev)), ver.mem.totalBufs, ver.td.burstSz, test == Cyclecount,
                2 * ver.td.numIter)
    ensures exit in {Completed, Failed} && (ver.dev.healthy ==> exit == Completed)
  {
    hide LoopDone, AlwaysFits, AllReadable, WellSized, SegCounts, Finished, Grown, Served, StandFor, Chunks;
    hide MemResources.Loaded, LoadedChains;
    ghost var decomp, counts := ver.mem.decompBufs[..], SegCounts(ver.mem.decompBufs[..]);
    ver.IsLoaded();
    ver.ReadyToDecompress();
    exit := Twice(test, ver, Decompress);
    if exit == Completed {
      LoopDoneFacts(ver, Decompress, counts);
      ChunksBack(ver.dev.inflate, ver.mem.compBufs[..], ver.mem.decompBufs[..], Chunks(ver.td),
                 Range(0, ver.mem.totalBufs));
      ver.LoadedAgain(decomp);
    }
  }

  /**
   * The runners, for a test that compresses; 0 is EXIT_SUCCESS and 1 EXIT_FAILURE. No value is
   * given for the run in which an op fails without lack of space while the verification
   * compresses. After a successful test the chains hold the input whatever the order in which
   * the device returned its ops, and each loop has made the device accept all buffers in order and
   * return each once the same number of times.
   */
  method Run(test: Test, ver: VerifyCtx) returns (ret: Option<int>, comp: LoopExit, ghost mid: Logs)
    requires ver.Ready() && ver.mem.Loaded(ver.td) && ver.td.testOp != DecompressOnly
    modifies ver, ver.dev, ver.mem.opPool`free
    modifies ver.mem.compBufs, ver.mem.compressedData, ver.mem.decompBufs, ver.mem.decompressedData
    ensures comp == BadStatus <==> ret == None
    ensures ChunksExplain(comp, ver.td, ver.dev)
    ensures ret == Some(0) ==>
      && ver.Ready() && ver.mem.Loaded(ver.td) && StandFor(ver.dev.inflate, ver.mem.compBufs[..], Chunks(ver.td))
      && Grown(ver.dev.fifo, old(LogsOf(ver.dev)), mid, ver.mem.totalBufs, ver.td.burstSz, false, Passes(ver.td))
      && Served(ver.dev, mid, ver.mem.totalBufs, ver.td.burstSz, test == Cyclecount,
                Passes(ver.td) * (2 * ver.td.numIter))
    ensures ret in {None, Some(0), Some(1)}
    ensures ver.dev.healthy && AllChunksFit(ver.td, ver.dev) ==>
      && (ver.td.testOp == CompressOnly || ver.dev.fifo || Commute(Chunks(ver.td)) ==> ret == Some(0))
  {
    hide AllChunksFit, Grown, Chunks, MemResources.Loaded, Commute, StandFor, ChunksExplain, Concat;
    hide Distinct, Permutation, Backwards;
    var decomp; ghost var first, order;
    ret, comp, decomp, first, order := ver.Run();
    mid := LogsOf(ver.dev);
    Decided(comp, ver.td, ver.dev);
    if comp == BadStatus {
      return None, comp, mid;
    }
    if ret != Some(0) {
      return;
    }
    ret := Measure(test, ver);
  }

  /** The measurement after a successful verification. */
  method Measure(test: Test, ver: VerifyCtx) returns (ret: Option<int>)
    requires ver.Ready() && ver.mem.Loaded(ver.td) && ver.td.testOp != DecompressOnly
    requires AllChunksFit(ver.td, ver.dev)
    modifies ver.dev, ver.mem.opPool`free
    modifies ver.mem.compBufs, ver.mem.decompBufs
    ensures ret == Some(0) ==>
      && ver.Ready() && ver.mem.Loaded(ver.td) && StandFor(ver.dev.inflate, ver.mem.compBufs[..], Chunks(ver.td))
      && Served(ver.dev, old(LogsOf(ver.dev)), ver.mem.totalBufs, ver.td.burstSz, test == Cyclecount,
                Passes(ver.td) * (2 * ver.td.numIter))
    ensures ret in {Some(0), Some(1)} && (ver.dev.healthy ==> ret == Some(0))
  {
    hide AllChunksFit, Grown, Chunks, MemResources.Loaded, StandFor;
    var exit := CompressTwice(test, ver);
    if exit.Res() < 0 {
      return Some(1);
    }
    if ver.td.testOp == CompressDecompress {
      ghost var l := LogsOf(ver.dev);
      exit := DecompressTwice(test, ver);
      if exit.Res() < 0 {
        return Some(1);
      }
      ServedMore(ver.dev, old(LogsOf(ver.dev)), l, ver.mem.totalBufs, ver.td.burstSz, test == Cyclecount,
                 2 * ver.td.numIter, 2 * ver.td.numIter);
    }
    ret := Some(0);
  }

  lemma Decided(comp: LoopExit, td: TestData, dev: CompDevice)
    requires td.Valid() && ChunksExplain(comp, td, dev)
    ensures comp == Completed ==> AllChunksFit(td, dev)
    ensures dev.healthy && AllChunksFit(td, dev) ==> comp == Completed
    ensures comp != NullSegment
  {
  }

  /**
   * A test that compresses, from its options to its result. On a healthy device that compresses
   * every chunk into its chain, and keeps the order if that matters, it succeeds.
   */
  method PerfTest(test: Test, td: TestData, dev: CompDevice)
    returns (ret: Option<int>, comp: LoopExit, mem: MemResources, ghost mid: Logs)
    requires td.Valid() && td.testOp != DecompressOnly && dev.Lossless() && dev.inflight == []
    modifies dev
    ensures fresh(mem) && ChunksExplain(comp, td, dev) && (comp == BadStatus <==> ret == None)
    ensures dev.healthy && AllChunksFit(td, dev) ==>
      (td.testOp == CompressOnly || dev.fifo || Commute(Chunks(td)) ==> ret == Some(0))
    ensures ret == Some(0) ==>
      && AllReadable(mem.decompBufs[..]) && Concat(Payloads(mem.decompBufs[..])) == td.input
      && StandFor(dev.inflate, mem.compBufs[..], Chunks(td))
      && Grown(dev.fifo, old(LogsOf(dev)), mid, td.TotalBufs(), td.burstSz, false, Passes(td))
      && Served(dev, mid, td.TotalBufs(), td.burstSz, test == Cyclecount, Passes(td) * (2 * td.numIter))
      && mid.calls < dev.calls && dev.calls[|mid.calls|].Enq?
      && dev.calls[|mid.calls|].asked == (if td.burstSz < td.TotalBufs() then td.burstSz else td.TotalBufs())
  {
    hide AllChunksFit, Grown, Chunks, MemResources.Loaded, Commute, StandFor, ChunksExplain, Concat;
    hide MemResources.PreparedToCompress, MemResources.PreparedToDecompress;
    mem := new MemResources(td);
    var ok := mem.PrepareBufs(td);
    var ver := new VerifyCtx(td, mem, dev);
    ret, comp, mid := Run(test, ver);
    if ret == Some(0) {
      FirstMeasured(dev, mid, td, test == Cyclecount);
      ver.LoadedFacts();
      ChunksAreInput(td);
    }
  }

  /** The measurement begins by asking for a burst, or for all buffers if they are fewer. */
  lemma FirstMeasured(dev: CompDevice, mid: Logs, td: TestData, wide: bool)
    requires td.Valid() && td.testOp != DecompressOnly
    requires Served(dev, mid, td.TotalBufs(), td.burstSz, wide, Passes(td) * (2 * td.numIter))
    ensures mid.calls < dev.calls && dev.calls[|mid.calls|].Enq?
    ensures dev.calls[|mid.calls|].asked == if td.burstSz < td.TotalBufs() then td.burstSz else td.TotalBufs()
  {
    hide InBursts;
    var calls := dev.calls[|mid.calls|..];
    DivCeilCovers(|td.input|, td.segSz);
    DivCeilCovers(td.TotalSegs(), td.maxSglSegs);
    RoundsHaveCalls(calls, td.TotalBufs(), td.burstSz, wide, Passes(td) * (2 * td.numIter));
    BurstFacts(calls, td.TotalBufs(), td.burstSz, wide);
    assert calls[0] == dev.calls[|mid.calls|];
  }

  /** How main_loop ends on a healthy device when the one chain is to hold `y`. */
  ghost function DecompressOnlyExit(td: TestData, y: Option<seq<byte>>): (exit: LoopExit)
  {
    if y == None || |y.value| > td.maxSglSegs * BufSize(td.segSz) then BadStatus
    else if |y.value| > td.maxSglSegs * td.segSz then NullSegment
    else Completed
  }

  /** What the chain of a test that only decompresses is cut to. */
  ghost predicate CutToContent(td: TestData, y: Option<seq<byte>>, c: Chain)
  {
    && y.Some? && Readable(c) && c.pktLen == |y.value|
    && (|y.value| <= td.segSz ==> Payload(c) == y.value)
  }

  /** main_loop of a test that only decompresses. */
  method DecompressOnlyLoop(test: Test, ver: VerifyCtx) returns (exit: LoopExit)
    requires ver.Ready() && ver.td.testOp == DecompressOnly && ver.mem.PreparedToDecompress(ver.td)
    modifies ver.dev, ver.mem.opPool`free, ver.mem.decompBufs
    ensures exit == Completed ==>
      && ver.Ready() && ver.mem.PreparedToDecompress(ver.td)
      && CutToContent(ver.td, ver.dev.inflate(ver.td.input), ver.mem.decompBufs[0])
    ensures ver.dev.healthy ==> exit == DecompressOnlyExit(ver.td, ver.dev.inflate(ver.td.input))
  {
    hide LoopDone, Reasons, AlwaysFits, AllReadable, WellSized, SegCounts, HasEnded;
    ghost var input, room := ver.mem.compBufs[0], ver.mem.outSegSz;
    ver.SingleChain([ver.td.maxSglSegs * room]);
    DecompressOnlyFacts(ver);
    ghost var src := ver.mem.compBufs[..];
    hide HoldsInput, Bounded, Readable, Payload, MemResources.Valid, MemResources.PreparedToDecompress, CutToContent;
    exit := MainLoop(test, ver, Decompress);
    assert ver.mem.compBufs[..] == src == [input];
    SingleReason(exit, ver.dev, input, ver.td.maxSglSegs, room, ver.td.segSz);
    if exit == Completed {
      LoopDoneFacts(ver, Decompress, [ver.td.maxSglSegs]);
      ver.StillPrepared(ver.mem.decompBufs[..]);
      SingleCut(ver, [ver.td.maxSglSegs]);
    }
  }

  lemma DecompressOnlyFacts(ver: VerifyCtx)
    requires ver.Ready() && ver.td.testOp == DecompressOnly && ver.mem.PreparedToDecompress(ver.td)
    ensures ver.td.segSz <= ver.mem.outSegSz == BufSize(ver.td.segSz)
    ensures ver.mem.compBufs.Length == ver.mem.decompBufs.Length == ver.mem.totalBufs == 1
    ensures ver.mem.compBufs != ver.mem.decompBufs && HoldsInput(ver.td, ver.mem.compBufs[0])
    ensures Readable(ver.mem.compBufs[0]) && Payload(ver.mem.compBufs[0]) == ver.td.input
  {
  }

  lemma SingleCut(ver: VerifyCtx, counts: seq<nat>)
    requires LoopDone(ver, Decompress, counts) && ver.td.testOp == DecompressOnly
    requires ver.mem.PreparedToDecompress(ver.td)
    ensures CutToContent(ver.td, ver.dev.inflate(ver.td.input), ver.mem.decompBufs[0])
  {
    assert HasEnded(Decompress, ver.dev.inflate, ver.OutSegSz(Decompress), LoopSegSz(ver, Decompress),
                    ver.mem.compBufs[0], ver.mem.decompBufs[0]);
  }

  /** With one buffer its content decides. */
  lemma SingleReason(exit: LoopExit, dev: CompDevice, input: Chain, count: nat, room: nat, segSz: nat)
    requires Readable(input) && Reasons(exit, dev, Decompress, [input], [count], room, segSz) && segSz <= room
    requires dev.healthy && exit == Completed ==> AlwaysFits(dev, Decompress, [input], [count], segSz)
    ensures var y := dev.inflate(Payload(input));
            dev.healthy ==>
              exit == if y == None || |y.value| > count * room then BadStatus
                      else if |y.value| > count * segSz then NullSegment
                      else Completed
  {
    MulLe(segSz, room, count);
    assert Outcome(dev, Decompress, [input], [count], room, 0)
        == dev.StatusOf(Decompress, 0, Payload(input), count * room);
    assert Outcome(dev, Decompress, [input], [count], segSz, 0)
        == dev.StatusOf(Decompress, 0, Payload(input), count * segSz);
  }

  /**
   * The runners of a test that only decompresses, for an input that passes the verification.
   * `exit` is how the measurement ends: on a healthy device it runs off the chain exactly if
   * the content is longer than the chain's segments would be at the size of an input segment.
   */
  method DecompressOnlyTest(test: Test, td: TestData, dev: CompDevice)
    returns (ok: bool, verify: LoopExit, exit: LoopExit, chain: Chain)
    requires td.Valid() && td.testOp == DecompressOnly && dev.Lossless() && dev.inflight == []
    modifies dev
    ensures ok <==> !td.externalMbufs
    ensures ok && dev.healthy ==>
      var y := dev.inflate(td.input);
      && verify == (if y == None then BadStatus
                    else if |y.value| > td.maxSglSegs * BufSize(td.segSz) then Failed else Completed)
      && (verify == Completed ==>
            exit == if |y.value| > td.maxSglSegs * td.segSz then NullSegment else Completed)
    ensures ok && verify == Completed && exit == Completed ==> CutToContent(td, dev.inflate(td.input), chain)
  {
    hide MemResources.PreparedToDecompress, MemResources.PreparedToCompress, MemResources.Loaded, CutToContent;
    verify, exit, chain := Completed, Completed, Chain(0, []);
    var mem := new MemResources(td);
    ok := mem.PrepareBufs(td);
    if !ok {
      return;
    }
    var ver := new VerifyCtx(td, mem, dev);
    var ret;
    ret, verify := ver.RunDecompressOnly();
    if verify != Completed {
      return;
    }
    for i := 0 to 2
      invariant exit == Completed && ver.Ready() && mem.PreparedToDecompress(td)
      invariant i > 0 ==> CutToContent(td, dev.inflate(td.input), mem.decompBufs[0])
      invariant i > 0 && dev.healthy ==> exit == DecompressOnlyExit(td, dev.inflate(td.input))
    {
      exit := DecompressOnlyLoop(test, ver);
      if exit != Completed {
        return;
      }
    }
    chain := mem.decompBufs[0];
  }

  /** A device that compresses by putting a zero in front, and for which `[1]` stands for 16 zeros. */
  function Inflate16(y: seq<byte>): (x: Option<seq<byte>>)
  {
    if y == [] then None else if y[0] == 0 then Some(y[1..]) else Some([0, 0, 0, 0, 0, 0, 0, 0, 0, 0, 0, 0, 0, 0, 0, 0])
  }

  /** A test in which the measurement runs off its chain: one segment of 8 bytes, 16 bytes of content. */
  method RunsOff(test: Test) returns (verify: LoopExit, exit: LoopExit)
    ensures verify == Completed && exit == NullSegment
  {
    var td := TestData([1], 8, 1, 1, 1, DecompressOnly, false);
    var dev := new CompDevice(true, false, false, true, 0, Inflate16, x => [0] + x, (b: nat, x: seq<byte>) => false);
    var ok, chain;
    assert td.Valid();
    assert BufSize(8) == 16;
    ok, verify, exit, chain := DecompressOnlyTest(test, td, dev);
  }
}
