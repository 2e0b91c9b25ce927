/** The parts that the throughput and cyclecount loops have in common. */
module CompPerf {
  import opened Util
  import opened Orders
  import opened Mempools
  import opened Mbufs
  import opened Traffic
  import opened CompDevices
  import opened CompBurst
  import opened CompVerify

  datatype Test = Throughput | Cyclecount

  /** The output chain of a buffer after the last iteration: cut to the `data` that its op has produced. */
  ghost predicate Ended(b: Burst, input: Chain, output: Chain, data: seq<byte>)
  {
    && Readable(input) && Converted(b.xform, b.dev.inflate, Payload(input), data)
    && IsCut(output, data, b.roomSz, b.outSegSz)
  }

  /** The chains of the buffers in `done` are cut to `outs`. */
  ghost predicate AllCut(b: Burst, src: seq<Chain>, dst: seq<Chain>, done: seq<nat>, outs: seq<seq<byte>>)
  {
    && |outs| == |done| && |src| == |dst|
    && forall j :: 0 <= j < |done| ==> done[j] < |dst| && Ended(b, src[done[j]], dst[done[j]], outs[j])
  }

  /** One more chain cut; the chains cut before are other ones. */
  lemma CutMore(b: Burst, src: seq<Chain>, dst: seq<Chain>, dst': seq<Chain>, done: seq<nat>,
                outs: seq<seq<byte>>, n: nat)
    requires n < |done| == |outs| && NoDup(done) && AllCut(b, src, dst, done[..n], outs[..n])
    requires |dst'| == |dst| && done[n] < |dst|
    requires forall i :: 0 <= i < |dst| && i != done[n] ==> dst'[i] == dst[i]
    requires Ended(b, src[done[n]], dst'[done[n]], outs[n])
    ensures AllCut(b, src, dst', done[..n + 1], outs[..n + 1])
  {
    hide Ended;
    forall j | 0 <= j < n ensures done[j] < |dst'| && Ended(b, src[done[j]], dst'[done[j]], outs[j]) {
      assert done[..n][j] == done[j] && outs[..n][j] == outs[j];
      assert done[j] != done[n];
    }
  }

  /** Cut chains stay as they are when only other chains change. */
  lemma CutKept(b: Burst, src: seq<Chain>, dst: seq<Chain>, dst': seq<Chain>, done: seq<nat>, outs: seq<seq<byte>>)
    requires AllCut(b, src, dst, done, outs) && |dst'| == |dst|
    requires forall j :: 0 <= j < |done| ==> done[j] < |dst| && dst'[done[j]] == dst[done[j]]
    ensures AllCut(b, src, dst', done, outs) && |outs| == |done|
  {
    hide Ended;
  }

  /** When all buffers have been served every chain is cut to what its op has produced. */
  lemma EveryCut(b: Burst, src: seq<Chain>, dst: seq<Chain>, done: seq<nat>, outs: seq<seq<byte>>)
    requires AllCut(b, src, dst, done, outs) && Permutation(done, |dst|)
    ensures |src| == |dst|
    ensures forall i :: 0 <= i < |dst| ==> HasEnded(b.xform, b.dev.inflate, b.roomSz, b.outSegSz, src[i], dst[i])
  {
    forall i | 0 <= i < |dst| ensures HasEnded(b.xform, b.dev.inflate, b.roomSz, b.outSegSz, src[i], dst[i]) {
      InAll(done, |dst|, i);
    }
  }

  /** The output chain is cut to what its input is converted to. */
  ghost predicate HasEnded(xform: Xform, inflate: seq<byte> -> Option<seq<byte>>, roomSz: nat, outSegSz: nat,
                           input: Chain, output: Chain)
  {
    Readable(input) && exists data :: Converted(xform, inflate, Payload(input), data)
                                      && IsCut(output, data, roomSz, outSegSz)
  }

  /** Segments as large as the loop takes them to be: the chain holds the converted input. */
  lemma EndedIsFinished(xform: Xform, inflate: seq<byte> -> Option<seq<byte>>, roomSz: nat, outSegSz: nat,
                        input: Chain, output: Chain)
    requires HasEnded(xform, inflate, roomSz, outSegSz, input, output) && roomSz == outSegSz
    ensures Finished(xform, inflate, input, output)
  {
  }

  /** Some op succeeds with more output than its chain has room for by the loop's segment size. */
  ghost predicate SomeOverruns(dev: CompDevice, xform: Xform, src: seq<Chain>, counts: seq<nat>, roomSz: nat,
                               outSegSz: nat)
  {
    exists b :: 0 <= b < |src| && b < |counts| && Readable(src[b])
                && Outcome(dev, xform, src, counts, roomSz, b) == Success
                && Outcome(dev, xform, src, counts, outSegSz, b) == OutOfSpace
  }

  /** The reasons for which a loop ends early. */
  ghost predicate Reasons(exit: LoopExit, dev: CompDevice, xform: Xform, src: seq<Chain>, counts: seq<nat>,
                          roomSz: nat, outSegSz: nat)
  {
    && (exit == BadStatus ==>
          || SomeEnds(Failure, dev, xform, src, counts, roomSz)
          || SomeEnds(OutOfSpace, dev, xform, src, counts, roomSz))
    && (exit == NullSegment ==> SomeOverruns(dev, xform, src, counts, roomSz, outSegSz))
    && (exit == Failed ==> !dev.healthy)
  }

  /** There is none if every op succeeds and fits by the loop's segment size. */
  lemma NoReasonLeft(exit: LoopExit, dev: CompDevice, xform: Xform, src: seq<Chain>, counts: seq<nat>,
                     roomSz: nat, outSegSz: nat)
    requires Reasons(exit, dev, xform, src, counts, roomSz, outSegSz) && outSegSz <= roomSz
    ensures AlwaysFits(dev, xform, src, counts, outSegSz) && dev.healthy ==> exit == Completed
  {
    if AlwaysFits(dev, xform, src, counts, outSegSz) {
      forall b | 0 <= b < |src| ensures Outcome(dev, xform, src, counts, roomSz, b) == Success {
        MulLe(outSegSz, roomSz, counts[b]);
      }
    }
  }

  /** The status an op has and the one it would have with the room the loop takes for granted. */
  lemma StatusByCut(b: Burst, i: nat, data: seq<byte>)
    requires i < b.src.Length && i < |b.counts| && Readable(b.src[i])
    requires Outcome(b.dev, b.xform, b.src[..], b.counts, b.roomSz, i) == Success
    requires Converted(b.xform, b.dev.inflate, Payload(b.src[i]), data)
    requires b.xform == Compress ==> b.roomSz == b.outSegSz
    requires |data| <= b.counts[i] * b.roomSz
    ensures Outcome(b.dev, b.xform, b.src[..], b.counts, b.outSegSz, i)
         == if b.xform == Compress || |data| <= b.counts[i] * b.outSegSz then Success else OutOfSpace
  {
  }

  /** What is known of the op that waits in `deq_ops` for its check. */
  ghost predicate ReturnedAs(b: Burst, from: nat, k: nat, data: seq<byte>)
    reads b, b.deqOps, b.opMem, b.src, b.dst
  {
    && from <= k < |b.done| && b.done[k] < b.src.Length && Readable(b.src[b.done[k]]) && b.done[k] < |b.counts|
    && k - from < b.deqOps.Length && b.deqOps[k - from] < b.opMem.Length
    && var status := Outcome(b.dev, b.xform, b.src[..], b.counts, b.roomSz, b.done[k]);
       && b.opMem[b.deqOps[k - from]].status == status
       && (status == Success ==> b.Yields(from, k, data) && |data| <= b.counts[b.done[k]] * b.roomSz)
  }

  /** The outputs of the returned ops, as far as they have succeeded. */
  lemma AllReturned(b: Burst, from: nat, outs: seq<seq<byte>>) returns (outs': seq<seq<byte>>)
    requires b.Inv(b.numEnq, b.unused) && b.held == b.numDeq && |outs| == from
    requires b.BurstDelivered(b.Config(), b.Snapshot(b.numEnq, b.unused), from)
    ensures |outs'| == from + b.numDeq && outs'[..from] == outs
    ensures forall k :: from <= k < |outs'| ==> ReturnedAs(b, from, k, outs'[k])
  {
    hide Good, AllReadable, Burst.BurstDelivered, Burst.Yields, Converted;
    outs' := outs;
    while |outs'| < from + b.numDeq
      invariant from <= |outs'| <= from + b.numDeq && outs'[..from] == outs
      invariant forall k :: from <= k < |outs'| ==> ReturnedAs(b, from, k, outs'[k])
    {
      var data := b.ReturnedOp(|outs'| - from, from);
      outs' := outs' + [data];
    }
  }

  /** In the last iteration: status check and trimming of one op. */
  method CheckOne(b: Burst, i: nat, ghost from: nat, ghost data: seq<byte>) returns (exit: LoopExit)
    requires b.Inv(b.numEnq, b.unused) && i < b.held && ReturnedAs(b, from, from + i, data)
    requires b.xform == Compress ==> b.roomSz == b.outSegSz
    modifies b.dst
    ensures exit == Completed ==>
      && b.Inv(b.numEnq, b.unused) && b.done[from + i] < b.totalBufs
      && (forall c :: 0 <= c < b.totalBufs && c != b.done[from + i] ==> b.dst[c] == old(b.dst[c]))
      && Ended(b, b.src[b.done[from + i]], b.dst[b.done[from + i]], data)
      && Outcome(b.dev, b.xform, b.src[..], b.counts, b.outSegSz, b.done[from + i]) == Success
      && forall k, d :: k != from + i && old(ReturnedAs(b, from, k, d)) ==> ReturnedAs(b, from, k, d)
    ensures Reasons(exit, b.dev, b.xform, b.src[..], b.counts, b.roomSz, b.outSegSz) && exit != Failed
  {
    hide Good, AllReadable, Burst.Yields, Converted, IsCut;
    if b.opMem[b.deqOps[i]].status != Success {
      return BadStatus;
    }
    b.YieldsFacts(from, from + i, data);
    StatusByCut(b, b.done[from + i], data);
    var ok := b.TrimOne(i, from, data);
    exit := if ok then Completed else NullSegment;
  }

  /** In the last iteration: status check and trimming, op by op. */
  method TrimChecked(b: Burst, ghost from: nat, ghost outs: seq<seq<byte>>)
    returns (exit: LoopExit, ghost outs': seq<seq<byte>>)
    requires b.Inv(b.numEnq, b.unused) && b.held == b.numDeq && NoDup(b.done)
    requires b.BurstDelivered(b.Config(), b.Snapshot(b.numEnq, b.unused), from)
    requires |outs| == from == |b.done| - b.numDeq && (b.xform == Compress ==> b.roomSz == b.outSegSz)
    requires AllCut(b, b.src[..], b.dst[..], b.done[..from], outs)
    requires Succeeded(b.dev, b.xform, b.src[..], b.counts, b.outSegSz, b.done[..from])
    modifies b.dst
    ensures exit == Completed ==>
      && b.Inv(b.numEnq, b.unused) && AllCut(b, b.src[..], b.dst[..], b.done, outs')
      && Succeeded(b.dev, b.xform, b.src[..], b.counts, b.outSegSz, b.done)
    ensures Reasons(exit, b.dev, b.xform, b.src[..], b.counts, b.roomSz, b.outSegSz) && exit != Failed
  {
    hide Good, AllReadable, AllCut, Ended, Succeeded, ReturnedAs, Burst.BurstDelivered, Outcome, Reasons;
    outs' := AllReturned(b, from, outs);
    exit := Completed;
    var i := 0;
    assert outs'[..from + i] == outs;
    while i < b.numDeq
      modifies b.dst
      invariant 0 <= i <= b.numDeq && b.Inv(b.numEnq, b.unused) && exit == Completed
      invariant AllCut(b, b.src[..], b.dst[..], b.done[..from + i], outs'[..from + i])
      invariant Succeeded(b.dev, b.xform, b.src[..], b.counts, b.outSegSz, b.done[..from + i])
      invariant forall k :: from + i <= k < |outs'| ==> ReturnedAs(b, from, k, outs'[k])
    {
      ghost var before, data := b.dst[..], outs'[from + i];
      ReturnedFacts(b, from, from + i, data);
      exit := CheckOne(b, i, from, data);
      if exit != Completed {
        return;
      }
      CutMore(b, b.src[..], before, b.dst[..], b.done, outs', from + i);
      EndsWith(b.dev, b.xform, b.src[..], b.counts, b.outSegSz, b.done, from + i, Success);
      i := i + 1;
    }
    assert b.done[..from + i] == b.done && outs'[..from + i] == outs';
    NoEarlyEnd(b.dev, b.xform, b.src[..], b.counts, b.roomSz, b.outSegSz);
  }

  lemma ReturnedFacts(b: Burst, from: nat, k: nat, data: seq<byte>)
    requires ReturnedAs(b, from, k, data)
    ensures from <= k < |b.done| && b.done[k] < b.src.Length && Readable(b.src[b.done[k]]) && b.done[k] < |b.counts|
  {
  }

  lemma NoEarlyEnd(dev: CompDevice, xform: Xform, src: seq<Chain>, counts: seq<nat>, roomSz: nat, outSegSz: nat)
    ensures Reasons(Completed, dev, xform, src, counts, roomSz, outSegSz)
  {
  }

  lemma FailedReason(dev: CompDevice, xform: Xform, src: seq<Chain>, counts: seq<nat>, roomSz: nat, outSegSz: nat)
    requires !dev.healthy
    ensures Reasons(Failed, dev, xform, src, counts, roomSz, outSegSz)
  {
  }

  /** In the last iteration the ops returned have succeeded and their chains are cut. */
  ghost predicate Tracked(b: Burst, last: bool, outs: seq<seq<byte>>)
    reads b, b.src, b.dst
  {
    last ==>
      && AllCut(b, b.src[..], b.dst[..], b.done, outs)
      && Succeeded(b.dev, b.xform, b.src[..], b.counts, b.outSegSz, b.done)
  }

  lemma NothingTracked(b: Burst, last: bool)
    requires b.done == [] && b.src.Length == b.dst.Length
    ensures Tracked(b, last, [])
  {
  }

  /** The loops fit what they work on: only decompression may take segments for smaller than they are. */
  ghost predicate Suits(b: Burst)
    reads b.src
  {
    AllReadable(b.src[..]) && (b.xform == Compress ==> b.roomSz == b.outSegSz)
  }

  /** In the last iteration: the status check and trimming behind a dequeue call. */
  method TrimBack(b: Burst, ghost from: nat, ghost before: seq<Chain>, ghost outs: seq<seq<byte>>)
    returns (exit: LoopExit, ghost outs': seq<seq<byte>>)
    requires b.Inv(b.numEnq, b.unused) && b.held == b.numDeq && Suits(b) && |before| == b.dst.Length
    requires from == |b.done| - b.numDeq && b.BurstDelivered(b.Config(), b.Snapshot(b.numEnq, b.unused), from)
    requires AllCut(b, b.src[..], before, b.done[..from], outs)
    requires Succeeded(b.dev, b.xform, b.src[..], b.counts, b.outSegSz, b.done[..from])
    requires forall j :: 0 <= j < from ==> b.done[j] < |before| && b.dst[b.done[j]] == before[b.done[j]]
    modifies b.dst
    ensures exit == Completed ==> b.Inv(b.numEnq, b.unused) && Tracked(b, true, outs')
    ensures Reasons(exit, b.dev, b.xform, b.src[..], b.counts, b.roomSz, b.outSegSz) && exit != Failed
  {
    hide Burst.BurstDelivered, Good, AllReadable, AllCut, Ended, Succeeded, Reasons, NoDup;
    DoneFacts(b, from);
    DistinctIsNoDup(b.done, b.totalBufs);
    CutKept(b, b.src[..], before, b.dst[..], b.done[..from], outs);
    exit, outs' := TrimChecked(b, from, outs);
  }

  /** The back half of a round: dequeue, status check and trimming in the last iteration, release. */
  method TakeBack(b: Burst, limit: nat, last: bool, ghost outs: seq<seq<byte>>)
    returns (exit: LoopExit, ghost outs': seq<seq<byte>>)
    requires b.Inv(b.numEnq, b.unused) && b.held == 0 && Tracked(b, last, outs) && Suits(b)
    requires b.Traced() && b.Polls(limit)
    modifies b`numDeq, b`totalDeq, b`held, b`done, b`taken, b.pool`free
    modifies b.dev`inflight, b.dev`stalls, b.dev`returned, b.dev`calls, b.deqOps, b.opMem, b.dst
    ensures exit == Completed ==>
      && b.Inv(b.numEnq, b.unused) && b.held == 0 && Tracked(b, last, outs')
      && b.totalDeq >= old(b.totalDeq) && b.Traced() && b.Quiet()
      && (b.totalDeq == old(b.totalDeq) && old(b.dev.inflight) != [] && limit > 0 ==> b.dev.stalls < old(b.dev.stalls))
    ensures b.dev.stalls <= old(b.dev.stalls)
    ensures !last ==> exit == Completed
    ensures Reasons(exit, b.dev, b.xform, b.src[..], b.counts, b.roomSz, b.outSegSz) && exit != Failed
  {
    hide Burst.Traced, Burst.Quiet, Good, AllReadable, AllCut, Ended, Succeeded, Burst.BurstDelivered, Reasons;
    hide Burst.Config, Burst.Snapshot;
    ghost var from, before := |b.done|, b.dst[..];
    DoneFacts(b, from);
    b.Dequeue(limit);
    DoneFacts(b, from);
    exit, outs' := Completed, outs;
    if last {
      assert b.done[..from] == old(b.done);
      exit, outs' := TrimBack(b, from, before, outs);
      if exit != Completed {
        return;
      }
    }
    NoEarlyEnd(b.dev, b.xform, b.src[..], b.counts, b.roomSz, b.outSegSz);
    b.Release();
  }

  lemma DistinctIsNoDup(order: seq<nat>, n: nat)
    requires Distinct(order, n)
    ensures NoDup(order)
  {
  }

  /** The front half of a round. */
  method Give(b: Burst, last: bool, ghost outs: seq<seq<byte>>) returns (ok: bool)
    requires b.Inv(b.numEnq, b.unused) && b.held == 0 && b.remaining > 0 && Tracked(b, last, outs)
    requires b.Traced() && b.Quiet()
    modifies b`taken, b`unused, b`remaining, b`totalEnq, b`numEnq, b.pool`free, b.ops, b.opMem, b.dst
    modifies b.dev`inflight, b.dev`stalls, b.dev`accepted, b.dev`calls
    ensures b.dev.healthy ==> ok
    ensures ok ==>
      && b.Inv(b.numEnq, b.unused) && b.held == 0 && Tracked(b, last, outs)
      && b.remaining <= old(b.remaining) && b.Traced() && b.JustPushed()
      && (b.remaining == old(b.remaining) ==> b.dev.stalls < old(b.dev.stalls))
    ensures b.dev.stalls <= old(b.dev.stalls)
  {
    hide Burst.Traced, Good, AllReadable, AllCut, Ended, Succeeded;
    ghost var before := b.dst[..];
    DoneFacts(b, |b.done|);
    var numOps;
    numOps, ok := b.Stage();
    if !ok {
      return;
    }
    if last {
      CutKept(b, b.src[..], before, b.dst[..], b.done, outs);
    }
    ok := b.Enqueue(numOps);
  }

  /** The last loop of an iteration. */
  method DrainAll(b: Burst, last: bool, ghost outs: seq<seq<byte>>)
    returns (exit: LoopExit, ghost outs': seq<seq<byte>>)
    requires b.Inv(b.numEnq, b.unused) && b.held == 0 && b.remaining == 0 && Tracked(b, last, outs) && Suits(b)
    requires b.Traced() && b.Quiet()
    modifies b`numDeq, b`totalDeq, b`held, b`done, b`taken, b.pool`free
    modifies b.dev`inflight, b.dev`stalls, b.dev`returned, b.dev`calls, b.deqOps, b.opMem, b.dst
    ensures exit == Completed ==>
      b.Inv(b.numEnq, b.unused) && b.held == 0 && b.totalDeq == b.totalBufs && Tracked(b, last, outs')
      && b.Traced() && b.Quiet()
    ensures Reasons(exit, b.dev, b.xform, b.src[..], b.counts, b.roomSz, b.outSegSz)
    ensures !last && b.dev.healthy ==> exit == Completed
  {
    hide Burst.Inv;
    hide Burst.Traced, Good, AllReadable, AllCut, Ended, Succeeded, Reasons;
    exit, outs' := Completed, outs;
    b.CountersAgree();
    while b.totalDeq < b.totalBufs
      invariant b.totalDeq + |b.dev.inflight| == b.totalEnq == b.totalBufs
      invariant b.Inv(b.numEnq, b.unused) && b.held == 0 && Tracked(b, last, outs') && b.Traced() && b.Quiet()
      decreases b.totalBufs - b.totalDeq, b.dev.stalls
    {
      exit, outs' := TakeBack(b, b.burstSz, last, outs');
      if exit != Completed {
        return;
      }
      b.CountersAgree();
      if b.numDeq == 0 {
        var errors := b.dev.ErrorCount();
        if errors > 0 {
          FailedReason(b.dev, b.xform, b.src[..], b.counts, b.roomSz, b.outSegSz);
          return Failed, outs';
        }
      }
    }
    NoEarlyEnd(b.dev, b.xform, b.src[..], b.counts, b.roomSz, b.outSegSz);
    exit := Completed;
  }

  /** What an iteration leaves behind. */
  ghost predicate IterationDone(b: Burst, last: bool, counts: seq<nat>)
    reads b, b.dev`inflight, b.pool`free, b.src, b.dst
  {
    && Idle(b) && WellSized(b.dst[..], b.roomSz) && SegCounts(b.dst[..]) == counts
    && (last ==>
          && (forall i :: 0 <= i < b.src.Length && i < b.dst.Length ==>
                HasEnded(b.xform, b.dev.inflate, b.roomSz, b.outSegSz, b.src[i], b.dst[i]))
          && AlwaysFits(b.dev, b.xform, b.src[..], counts, b.outSegSz))
  }

  /** The end of an iteration: the device is drained and all ops are back in the pool. */
  method Finish(b: Burst, last: bool, ghost outs: seq<seq<byte>>) returns (exit: LoopExit)
    requires b.Inv(b.numEnq, b.unused) && b.held == 0 && b.remaining == 0 && Tracked(b, last, outs) && Suits(b)
    requires b.Traced() && b.Quiet()
    modifies b`numDeq, b`totalDeq, b`held, b`done, b`taken, b.pool`free
    modifies b.dev`inflight, b.dev`stalls, b.dev`returned, b.dev`calls, b.deqOps, b.opMem, b.dst
    ensures exit == Completed ==>
      && IterationDone(b, last, b.counts) && ServedOnce(b.dev.fifo, b.done, b.totalBufs)
      && b.dev.accepted == b.history + Range(0, b.totalBufs) && b.dev.returned == b.back + b.done
      && CalledOnce(b.dev, b.callsBefore, b.totalBufs, b.burstSz, b.wide)
    ensures Reasons(exit, b.dev, b.xform, b.src[..], b.counts, b.roomSz, b.outSegSz)
    ensures !last && b.dev.healthy ==> exit == Completed
  {
    hide Burst.Inv;
    hide CalledOnce, Burst.Traced, Good, AllReadable, AllCut, HasEnded, Succeeded, AlwaysFits, WellSized, Reasons;
    ghost var all;
    exit, all := DrainAll(b, last, outs);
    if exit == Completed {
      b.CountersAgree();
      b.IterationOver();
      b.OneRound();
      if last {
        EveryCut(b, b.src[..], b.dst[..], b.done, all);
        AllSucceeded(b.dev, b.xform, b.src[..], b.counts, b.outSegSz, b.done);
      }
    }
  }

  /**
   * One iteration of either main_loop; `last` says whether the output chains are trimmed. The
   * cyclecount loop is the `wide` one, which asks the device for as many ops as are in use.
   */
  method Iterate(b: Burst, last: bool) returns (exit: LoopExit)
    requires b.Shape() && Idle(b) && Suits(b) && WellSized(b.dst[..], b.roomSz)
    modifies b, b.pool`free, b.dev, b.ops, b.deqOps, b.opMem, b.dst
    ensures exit == Completed ==>
      && IterationDone(b, last, old(SegCounts(b.dst[..]))) && ServedOnce(b.dev.fifo, b.done, b.totalBufs)
      && b.dev.accepted == old(b.dev.accepted) + Range(0, b.totalBufs)
      && b.dev.returned == old(b.dev.returned) + b.done
      && CalledOnce(b.dev, old(b.dev.calls), b.totalBufs, b.burstSz, b.wide)
    ensures Reasons(exit, b.dev, b.xform, b.src[..], old(SegCounts(b.dst[..])), b.roomSz, b.outSegSz)
    ensures !last && b.dev.healthy ==> exit == Completed
  {
    hide Burst.Inv;
    hide CalledOnce, Burst.Traced, Good, AllReadable, AllCut, Succeeded, IterationDone, WellSized, Reasons;
    b.StartIteration();
    ghost var outs := [];
    NothingTracked(b, last);
    ghost var history, back, counts, calls := b.history, b.back, b.counts, b.callsBefore;
    while b.remaining > 0
      invariant b.Inv(b.numEnq, b.unused) && b.held == 0 && Tracked(b, last, outs)
      invariant b.history == history && b.back == back && b.counts == counts
      invariant b.callsBefore == calls && b.Traced() && b.Quiet()
      decreases b.remaining, b.dev.stalls
    {
      var ok := Give(b, last, outs);
      if !ok {
        FailedReason(b.dev, b.xform, b.src[..], counts, b.roomSz, b.outSegSz);
        return Failed;
      }
      var limit := if b.wide then b.taken % 0x1_0000 else b.burstSz;
      exit, outs := TakeBack(b, limit, last, outs);
      if exit != Completed {
        return;
      }
    }
    exit := Finish(b, last, outs);
  }

  /**
   * The iterations of either main_loop: in each the device is handed all buffers in order and
   * returns each once, and only the last one looks at what the ops have done. On a healthy device
   * it completes exactly if every op succeeds and its output fits the chain by the loop's segment
   * size.
   */
  method Iterations(b: Burst, numIter: nat) returns (exit: LoopExit)
    requires b.Shape() && Idle(b) && Suits(b) && WellSized(b.dst[..], b.roomSz) && numIter > 0
    modifies b, b.pool`free, b.dev, b.ops, b.deqOps, b.opMem, b.dst
    ensures exit == Completed ==>
      && IterationDone(b, true, old(SegCounts(b.dst[..])))
      && Served(b.dev, old(LogsOf(b.dev)), b.totalBufs, b.burstSz, b.wide, numIter)
    ensures Reasons(exit, b.dev, b.xform, b.src[..], old(SegCounts(b.dst[..])), b.roomSz, b.outSegSz)
    ensures b.dev.healthy ==>
      (exit == Completed <==> AlwaysFits(b.dev, b.xform, b.src[..], old(SegCounts(b.dst[..])), b.outSegSz))
  {
    hide AllReadable, WellSized, HasEnded, AlwaysFits, Reasons, Grown, CalledOnce;
    ghost var counts := SegCounts(b.dst[..]);
    ServedNone(b.dev.fifo, LogsOf(b.dev), b.totalBufs, b.burstSz, b.wide);
    var iter := 0;
    exit := Completed;
    while iter < numIter
      invariant 0 <= iter <= numIter && exit == Completed
      invariant Suits(b) && IterationDone(b, iter == numIter, counts)
      invariant Served(b.dev, old(LogsOf(b.dev)), b.totalBufs, b.burstSz, b.wide, iter)
    {
      ghost var l := LogsOf(b.dev);
      exit := Iterate(b, iter == numIter - 1);
      NoReasonLeft(exit, b.dev, b.xform, b.src[..], counts, b.roomSz, b.outSegSz);
      if exit != Completed {
        return;
      }
      ServedAgain(b.dev, old(LogsOf(b.dev)), l, b.done, b.totalBufs, b.burstSz, b.wide, iter);
      iter := iter + 1;
    }
    NoEarlyEnd(b.dev, b.xform, b.src[..], counts, b.roomSz, b.outSegSz);
  }

  /** out_seg_sz of both loops. The chains may be larger than that when the test only decompresses. */
  function LoopSegSz(ver: VerifyCtx, xform: Xform): (n: nat)
  {
    if xform == Compress then ver.mem.outSegSz else ver.td.segSz
  }

  /** What main_loop sets up before its first iteration. */
  method NewBurst(test: Test, ver: VerifyCtx, xform: Xform, stagingSz: nat) returns (b: Burst)
    requires ver.Ready() && Min(ver.td.burstSz, ver.mem.totalBufs) <= stagingSz
    requires AllReadable(ver.Src(xform)[..]) && WellSized(ver.Dst(xform)[..], ver.OutSegSz(xform))
    ensures fresh(b) && fresh(b.ops) && fresh(b.deqOps) && fresh(b.opMem)
    ensures b.pool == ver.mem.opPool && b.dev == ver.dev && b.src == ver.Src(xform) && b.dst == ver.Dst(xform)
    ensures b.xform == xform && b.roomSz == ver.OutSegSz(xform) && b.outSegSz == LoopSegSz(ver, xform)
    ensures b.outSegSz == if xform == Compress then ver.mem.outSegSz else ver.td.segSz
    ensures if xform == Compress then b.src == ver.mem.decompBufs && b.dst == ver.mem.compBufs
            else b.src == ver.mem.compBufs && b.dst == ver.mem.decompBufs
    ensures b.burstSz == ver.td.burstSz && (b.wide <==> test == Cyclecount)
    ensures b.totalBufs == ver.mem.totalBufs && b.Shape() && Idle(b) && Suits(b)
  {
    var ops := new Obj[stagingSz](_ => 0);
    var deqOps := new Obj[ver.mem.totalBufs](_ => 0);
    var opMem := new CompOp[2 * ver.mem.totalBufs](_ => CompOp(0, 0, 0, 0, xform, NotProcessed, 0));
    b := new Burst(ver.mem.opPool, ver.dev, ops, deqOps, opMem, ver.Src(xform), ver.Dst(xform), xform,
                   ver.OutSegSz(xform), LoopSegSz(ver, xform), ver.td.burstSz, test == Cyclecount);
  }

  /** What a completed main_loop leaves behind. */
  ghost predicate LoopDone(ver: VerifyCtx, xform: Xform, counts: seq<nat>)
    reads ver.dev`inflight, ver.mem.opPool`free, ver.Src(xform), ver.Dst(xform)
  {
    && ver.Ready() && WellSized(ver.Dst(xform)[..], ver.OutSegSz(xform)) && SegCounts(ver.Dst(xform)[..]) == counts
    && (forall i :: 0 <= i < ver.mem.totalBufs ==>
          HasEnded(xform, ver.dev.inflate, ver.OutSegSz(xform), LoopSegSz(ver, xform), ver.Src(xform)[i],
                   ver.Dst(xform)[i]))
    && AlwaysFits(ver.dev, xform, ver.Src(xform)[..], counts, LoopSegSz(ver, xform))
  }
}
