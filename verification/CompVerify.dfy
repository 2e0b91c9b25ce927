/** The verification test of test-compress-perf (comp_perf_test_verify.c). */
module CompVerify {
  import opened Util
  import opened Orders
  import opened Mempools
  import opened Mbufs
  import opened Traffic
  import opened CompDevices
  import opened CompCommon
  import opened CompBurst

  /**
   * How main_loop ends. It returns -1 after Failed; an op that fails for another reason than
   * lack of space leaves the loop without touching the result, so BadStatus returns 0. After
   * NullSegment there is no return: the trimming loop has run off a chain.
   */
  datatype LoopExit = Completed | Failed | BadStatus | NullSegment {
    function Res(): (r: int) {
      if Failed? then -1 else 0
    }
  }

  /** No output of buffer `b` is longer than limits[b]. */
  ghost predicate Bounded(limits: seq<nat>, xform: Xform, inflate: seq<byte> -> Option<seq<byte>>,
                          src: seq<Chain>, counts: seq<nat>, outSegSz: nat)
    requires AllReadable(src)
  {
    && |limits| == |src| == |counts|
    && forall b, out :: 0 <= b < |src| && Converted(xform, inflate, Payload(src[b]), out) ==>
         |out| <= counts[b] * outSegSz ==> |out| <= limits[b]
  }

  lemma OutputBounded(limits: seq<nat>, xform: Xform, inflate: seq<byte> -> Option<seq<byte>>,
                      src: seq<Chain>, counts: seq<nat>, outSegSz: nat, b: nat, out: seq<byte>)
    requires AllReadable(src) && Bounded(limits, xform, inflate, src, counts, outSegSz) && b < |src|
    requires Converted(xform, inflate, Payload(src[b]), out) && |out| <= counts[b] * outSegSz
    ensures b < |limits| && |out| <= limits[b]
  {
  }

  /** The output chain of a buffer holds what its input was converted to. */
  ghost predicate Finished(xform: Xform, inflate: seq<byte> -> Option<seq<byte>>, input: Chain, output: Chain)
  {
    Readable(input) && Readable(output) && Converted(xform, inflate, Payload(input), Payload(output))
  }

  /** The chains of the buffers in `done` are finished and hold `outs`. */
  ghost predicate AllFinished(xform: Xform, inflate: seq<byte> -> Option<seq<byte>>, src: seq<Chain>,
                              dst: seq<Chain>, done: seq<nat>, outs: seq<seq<byte>>)
  {
    && |outs| == |done| && |src| == |dst|
    && forall j :: 0 <= j < |done| ==>
         && done[j] < |dst| && Finished(xform, inflate, src[done[j]], dst[done[j]])
         && Payload(dst[done[j]]) == outs[j]
  }

  /** The output bytes collected so far, within the limits of the buffers they came from. */
  ghost predicate Written(out: seq<byte>, size: nat, outs: seq<seq<byte>>, limits: seq<nat>, done: seq<nat>)
  {
    && |outs| <= |done| && (forall j :: 0 <= j < |done| ==> done[j] < |limits|)
    && size <= |out| && out[..size] == Concat(outs)
    && forall j :: 0 <= j < |outs| ==> |outs[j]| <= limits[done[j]]
  }

  /** There is room for one more output. */
  lemma RoomForOutput(out: seq<byte>, size: nat, outs: seq<seq<byte>>, limits: seq<nat>, done: seq<nat>,
                      next: seq<byte>)
    requires Written(out, size, outs, limits, done) && Distinct(done, |limits|) && Sum(limits) <= |out|
    requires |outs| < |done| && |next| <= limits[done[|outs|]]
    ensures size + |next| <= |out|
  {
    var n := |outs|;
    var picked := Pick(limits, done[..n + 1]);
    ConcatLength(outs + [next], picked);
    ConcatAppend(outs, next);
    DistinctSum(limits, done[..n + 1]);
  }

  lemma WrittenMore(out: seq<byte>, out': seq<byte>, size: nat, outs: seq<seq<byte>>, limits: seq<nat>,
                    done: seq<nat>, next: seq<byte>)
    requires Written(out, size, outs, limits, done)
    requires |outs| < |done| && |next| <= limits[done[|outs|]] && size + |next| <= |out| == |out'|
    requires out'[..size] == out[..size] && out'[size..size + |next|] == next
    ensures Written(out', size + |next|, outs + [next], limits, done)
  {
    ConcatAppend(outs, next);
    assert out'[..size + |next|] == out'[..size] + out'[size..size + |next|];
  }

  /** The copy of one op's output behind the output already there. */
  method CopyOut(out: array<byte>, at: nat, data: seq<byte>)
    requires at + |data| <= out.Length
    modifies out
    ensures out[..][..at] == old(out[..])[..at] && out[..][at..at + |data|] == data
  {
    forall k | 0 <= k < |data| {
      out[at + k] := data[k];
    }
  }

  /** Every op will succeed: none is refused, no input is broken, every output finds room. */
  ghost predicate AlwaysFits(dev: CompDevice, xform: Xform, src: seq<Chain>, counts: seq<nat>, outSegSz: nat)
  {
    && |src| == |counts|
    && forall b :: 0 <= b < |src| ==> Readable(src[b]) && Outcome(dev, xform, src, counts, outSegSz, b) == Success
  }

  /** Some op will end with this status. */
  ghost predicate SomeEnds(status: Status, dev: CompDevice, xform: Xform, src: seq<Chain>, counts: seq<nat>,
                           outSegSz: nat)
  {
    exists b :: 0 <= b < |src| && b < |counts| && Readable(src[b])
                && Outcome(dev, xform, src, counts, outSegSz, b) == status
  }

  /** The reasons for which the verify loop ends early. */
  ghost predicate Explains(exit: LoopExit, dev: CompDevice, xform: Xform, src: seq<Chain>, counts: seq<nat>,
                           outSegSz: nat)
  {
    && (exit == BadStatus ==> SomeEnds(Failure, dev, xform, src, counts, outSegSz))
    && (exit == Failed && dev.healthy ==> SomeEnds(OutOfSpace, dev, xform, src, counts, outSegSz))
    && exit != NullSegment
  }

  /** If every op will succeed there is no reason but a fault of the device. */
  lemma NoReason(exit: LoopExit, dev: CompDevice, xform: Xform, src: seq<Chain>, counts: seq<nat>, outSegSz: nat)
    requires Explains(exit, dev, xform, src, counts, outSegSz)
    ensures AlwaysFits(dev, xform, src, counts, outSegSz) ==> exit != BadStatus && (dev.healthy ==> exit == Completed)
  {
  }

  /** The ops of these buffers have succeeded. */
  ghost predicate Succeeded(dev: CompDevice, xform: Xform, src: seq<Chain>, counts: seq<nat>, outSegSz: nat,
                            done: seq<nat>)
  {
    forall j :: 0 <= j < |done| ==>
      && done[j] < |src| && done[j] < |counts| && Readable(src[done[j]])
      && Outcome(dev, xform, src, counts, outSegSz, done[j]) == Success
  }

  /** When all buffers have been served successfully, every op was to succeed. */
  lemma AllSucceeded(dev: CompDevice, xform: Xform, src: seq<Chain>, counts: seq<nat>, outSegSz: nat, done: seq<nat>)
    requires Succeeded(dev, xform, src, counts, outSegSz, done) && |counts| == |src|
    requires multiset(done) == multiset(Range(0, |src|))
    ensures AlwaysFits(dev, xform, src, counts, outSegSz)
  {
    hide Outcome;
    forall b | 0 <= b < |src| ensures Readable(src[b]) && Outcome(dev, xform, src, counts, outSegSz, b) == Success {
      InAll(done, |src|, b);
    }
  }

  /** A permutation of 0, ..., n - 1 has every number below `n`. */
  lemma InAll(order: seq<nat>, n: nat, b: nat)
    requires multiset(order) == multiset(Range(0, n)) && b < n
    ensures exists j :: 0 <= j < |order| && order[j] == b
  {
    assert b == Range(0, n)[b];
    assert b in multiset(order);
    assert b in order;
  }

  /** The reading pass over a returned burst: status checks and the copy of the output. */
  method ReadBurst(b: Burst, out: array<byte>, size: nat, ghost from: nat, ghost outs: seq<seq<byte>>,
                   ghost limits: seq<nat>)
    returns (exit: LoopExit, size': nat, ghost outs': seq<seq<byte>>)
    requires b.Inv(b.numEnq, b.unused) && b.held == b.numDeq && Distinct(b.done, |limits|)
    requires b.BurstDelivered(b.Config(), b.Snapshot(b.numEnq, b.unused), from)
    requires AllReadable(b.src[..]) && |outs| == from == |b.done| - b.numDeq
    requires Bounded(limits, b.xform, b.dev.inflate, b.src[..], b.counts, b.outSegSz)
    requires Sum(limits) <= out.Length && Written(out[..], size, outs, limits, b.done)
    requires out !in b.Footprint() && b.roomSz == b.outSegSz
    requires Succeeded(b.dev, b.xform, b.src[..], b.counts, b.outSegSz, b.done[..from])
    modifies out
    ensures exit == Completed ==>
      && Written(out[..], size', outs', limits, b.done) && |outs'| == |b.done| && outs <= outs'
      && (forall k :: from <= k < |outs'| ==> b.Yields(from, k, outs'[k]))
      && Succeeded(b.dev, b.xform, b.src[..], b.counts, b.outSegSz, b.done)
    ensures exit == BadStatus ==> exists i :: 0 <= i < b.numDeq && b.HasStatus(i, Failure)
    ensures exit == Failed ==> exists i :: 0 <= i < b.numDeq && b.HasStatus(i, OutOfSpace)
    ensures exit == BadStatus ==> SomeEnds(Failure, b.dev, b.xform, b.src[..], b.counts, b.outSegSz)
    ensures exit == Failed ==> SomeEnds(OutOfSpace, b.dev, b.xform, b.src[..], b.counts, b.outSegSz)
    ensures exit != NullSegment
  {
    hide Good, AllReadable, Burst.BurstDelivered, Burst.Yields, Written, Bounded, Distinct, Succeeded, SomeEnds;
    hide Burst.HasStatus;
    exit, size', outs' := Completed, size, outs;
    var i := 0;
    while i < b.numDeq
      modifies out
      invariant 0 <= i <= b.numDeq && exit == Completed
      invariant b.Inv(b.numEnq, b.unused)
      invariant b.BurstDelivered(b.Config(), b.Snapshot(b.numEnq, b.unused), from)
      invariant Written(out[..], size', outs', limits, b.done) && |outs'| == from + i && outs <= outs'
      invariant forall k :: from <= k < |outs'| ==> b.Yields(from, k, outs'[k])
      invariant Succeeded(b.dev, b.xform, b.src[..], b.counts, b.outSegSz, b.done[..from + i])
    {
      exit, size', outs' := ReadNext(b, out, size', i, from, outs', limits);
      if exit != Completed {
        return;
      }
      i := i + 1;
    }
    assert b.done[..from + i] == b.done;
  }

  /** The reading of one returned op. */
  method ReadNext(b: Burst, out: array<byte>, size: nat, i: nat, ghost from: nat, ghost outs: seq<seq<byte>>,
                  ghost limits: seq<nat>)
    returns (exit: LoopExit, size': nat, ghost outs': seq<seq<byte>>)
    requires b.Inv(b.numEnq, b.unused) && i < b.held && Distinct(b.done, |limits|)
    requires b.BurstDelivered(b.Config(), b.Snapshot(b.numEnq, b.unused), from)
    requires AllReadable(b.src[..]) && |outs| == from + i < |b.done|
    requires Bounded(limits, b.xform, b.dev.inflate, b.src[..], b.counts, b.outSegSz)
    requires Sum(limits) <= out.Length && Written(out[..], size, outs, limits, b.done)
    requires out !in b.Footprint() && b.roomSz == b.outSegSz
    requires Succeeded(b.dev, b.xform, b.src[..], b.counts, b.outSegSz, b.done[..from + i])
    modifies out
    ensures exit == Completed ==>
      && Written(out[..], size', outs', limits, b.done) && |outs'| == |outs| + 1 && outs <= outs'
      && b.Yields(from, from + i, outs'[from + i])
      && Succeeded(b.dev, b.xform, b.src[..], b.counts, b.outSegSz, b.done[..from + i + 1])
    ensures exit == BadStatus ==> b.HasStatus(i, Failure)
    ensures exit == Failed ==> b.HasStatus(i, OutOfSpace)
    ensures exit == BadStatus ==> SomeEnds(Failure, b.dev, b.xform, b.src[..], b.counts, b.outSegSz)
    ensures exit == Failed ==> SomeEnds(OutOfSpace, b.dev, b.xform, b.src[..], b.counts, b.outSegSz)
    ensures exit != NullSegment
  {
    hide Good, AllReadable, Burst.BurstDelivered, Burst.Yields, Written, Bounded, Distinct, Succeeded, SomeEnds;
    hide Converted, Sum, Burst.HasStatus;
    exit, size', outs' := Completed, size, outs;
    var op, data := b.ReadOne(i, from);
    EndsWith(b.dev, b.xform, b.src[..], b.counts, b.outSegSz, b.done, from + i, op.status);
    if op.status == OutOfSpace {
      return Failed, size, outs;
    } else if op.status != Success {
      return BadStatus, size, outs;
    }
    if data == None {
      return Failed, size, outs;
    }
    ghost var before := out[..];
    OutputBounded(limits, b.xform, b.dev.inflate, b.src[..], b.counts, b.outSegSz, b.done[from + i], data.value);
    RoomForOutput(before, size, outs, limits, b.done, data.value);
    CopyOut(out, size, data.value);
    WrittenMore(before, out[..], size, outs, limits, b.done, data.value);
    outs' := outs + [data.value];
    size' := size + op.produced;
  }

  /** What the status of one more returned op tells. */
  lemma EndsWith(dev: CompDevice, xform: Xform, src: seq<Chain>, counts: seq<nat>, outSegSz: nat, done: seq<nat>,
                 n: nat, status: Status)
    requires n < |done| && done[n] < |src| && done[n] < |counts| && Readable(src[done[n]])
    requires status == Outcome(dev, xform, src, counts, outSegSz, done[n])
    ensures SomeEnds(status, dev, xform, src, counts, outSegSz)
    ensures status == Success && Succeeded(dev, xform, src, counts, outSegSz, done[..n]) ==>
              Succeeded(dev, xform, src, counts, outSegSz, done[..n + 1])
  {
    hide Outcome;
    assert done[..n + 1] == done[..n] + [done[n]];
  }

  /** One more chain finished; the chains finished before are other ones. */
  lemma FinishedMore(xform: Xform, inflate: seq<byte> -> Option<seq<byte>>, src: seq<Chain>, dst: seq<Chain>,
                     dst': seq<Chain>, done: seq<nat>, outs: seq<seq<byte>>, n: nat)
    requires n < |done| == |outs| && NoDup(done)
    requires AllFinished(xform, inflate, src, dst, done[..n], outs[..n])
    requires |dst'| == |dst| && done[n] < |dst|
    requires forall b :: 0 <= b < |dst| && b != done[n] ==> dst'[b] == dst[b]
    requires Readable(src[done[n]]) && Readable(dst'[done[n]]) && Payload(dst'[done[n]]) == outs[n]
    requires Converted(xform, inflate, Payload(src[done[n]]), outs[n])
    ensures AllFinished(xform, inflate, src, dst', done[..n + 1], outs[..n + 1])
  {
    forall j | 0 <= j < n
      ensures done[j] < |dst'| && Finished(xform, inflate, src[done[j]], dst'[done[j]])
      ensures Payload(dst'[done[j]]) == outs[j]
    {
      assert done[..n][j] == done[j] && outs[..n][j] == outs[j];
      assert done[j] != done[n];
    }
  }

  /** The trimming pass over a returned burst. */
  method TrimBurst(b: Burst, ghost from: nat, ghost outs: seq<seq<byte>>)
    requires b.Inv(b.numEnq, b.unused) && b.held == b.numDeq && NoDup(b.done)
    requires |outs| == |b.done| == from + b.numDeq
    requires forall k :: from <= k < |outs| ==> b.Yields(from, k, outs[k])
    requires AllReadable(b.src[..]) && b.roomSz == b.outSegSz
    requires AllFinished(b.xform, b.dev.inflate, b.src[..], b.dst[..], b.done[..from], outs[..from])
    modifies b.dst
    ensures b.Inv(b.numEnq, b.unused)
    ensures AllFinished(b.xform, b.dev.inflate, b.src[..], b.dst[..], b.done, outs)
  {
    hide Good, AllReadable, AllFinished, Burst.Yields;
    var i := 0;
    while i < b.numDeq
      modifies b.dst
      invariant 0 <= i <= b.numDeq && b.Inv(b.numEnq, b.unused)
      invariant AllFinished(b.xform, b.dev.inflate, b.src[..], b.dst[..], b.done[..from + i], outs[..from + i])
      invariant forall k :: from + i <= k < |outs| ==> b.Yields(from, k, outs[k])
    {
      ghost var before, data := b.dst[..], outs[from + i];
      b.YieldsFacts(from, from + i, data);
      b.FitsByRoom(i, from, data);
      var ok := b.TrimOne(i, from, data);
      FinishedMore(b.xform, b.dev.inflate, b.src[..], before, b.dst[..], b.done, outs, from + i);
      i := i + 1;
    }
    assert b.done[..from + i] == b.done && outs[..from + i] == outs;
  }

  /** Finished chains stay finished when only other chains change. */
  lemma FinishedKept(xform: Xform, inflate: seq<byte> -> Option<seq<byte>>, src: seq<Chain>, dst: seq<Chain>,
                     dst': seq<Chain>, done: seq<nat>, outs: seq<seq<byte>>)
    requires AllFinished(xform, inflate, src, dst, done, outs) && |dst'| == |dst|
    requires forall j :: 0 <= j < |done| ==> done[j] < |dst| && dst'[done[j]] == dst[done[j]]
    ensures AllFinished(xform, inflate, src, dst', done, outs)
  {
  }

  /** The output collected in the loop so far. */
  ghost predicate Collected(b: Burst, out: array<byte>, size: nat, outs: seq<seq<byte>>, limits: seq<nat>)
    reads b, b.src, b.dst, out
  {
    && AllFinished(b.xform, b.dev.inflate, b.src[..], b.dst[..], b.done, outs)
    && Written(out[..], size, outs, limits, b.done)
    && Succeeded(b.dev, b.xform, b.src[..], b.counts, b.outSegSz, b.done)
  }

  /** What stays fixed around the loop. */
  ghost predicate Fixed(b: Burst, out: array<byte>, limits: seq<nat>)
    reads b, b.src
  {
    && out !in b.Footprint() && AllReadable(b.src[..]) && b.roomSz == b.outSegSz && !b.wide
    && |limits| == b.totalBufs && Sum(limits) <= out.Length
    && Bounded(limits, b.xform, b.dev.inflate, b.src[..], b.counts, b.outSegSz)
  }

  /** A device that turns bursts around, and bursts that take all buffers at once. */
  ghost predicate InOneBurst(b: Burst)
  {
    b.dev.swift && b.dev.NewestFirst() && b.totalBufs <= b.burstSz
  }

  /** Nothing has been handed over yet. */
  ghost predicate Untouched(b: Burst)
    reads b, b.dev`inflight
  {
    b.remaining == b.totalBufs && b.totalEnq == 0 && b.done == [] && b.dev.inflight == []
  }

  /** All buffers are in the device. */
  ghost predicate Full(b: Burst, done: seq<nat>, flight: seq<Request>)
  {
    done == [] && Dsts(flight) == Range(0, b.totalBufs)
  }

  /** The buffers, the last one first. */
  ghost predicate Backwards(order: seq<nat>, n: nat)
  {
    |order| == n && forall i :: 0 <= i < n ==> order[i] == n - 1 - i
  }

  /** The returned buffers are distinct buffers of the test. */
  lemma DoneFacts(b: Burst, from: nat)
    requires b.Inv(b.numEnq, b.unused) && from <= |b.done|
    ensures Distinct(b.done, b.totalBufs) && |b.done| == b.totalDeq <= b.totalEnq
    ensures forall j :: 0 <= j < |b.done| ==> b.done[j] < b.totalEnq
    ensures forall j :: 0 <= j < from ==> b.done[j] !in b.done[from..]
    ensures |b.counts| == b.totalBufs
  {
    ProgressFacts(b.dev.fifo, b.done, b.dev.inflight, b.totalEnq);
    forall j | 0 <= j < |b.done| ensures b.done[j] < b.totalEnq {
      assert b.done[j] in b.done;
    }
    assert b.counts == SegCounts(b.dst[..]);
  }

  lemma WrittenLonger(out: seq<byte>, size: nat, outs: seq<seq<byte>>, limits: seq<nat>, done: seq<nat>,
                      done': seq<nat>)
    requires Written(out, size, outs, limits, done) && done <= done'
    requires forall j :: 0 <= j < |done'| ==> done'[j] < |limits|
    ensures Written(out, size, outs, limits, done')
  {
  }

  /** The dequeue call: what was collected stays as it is. */
  method TakeDone(b: Burst, out: array<byte>, ghost size: nat, ghost outs: seq<seq<byte>>, ghost limits: seq<nat>)
    requires b.Inv(b.numEnq, b.unused) && b.held == 0 && b.Traced() && b.Polls(b.burstSz)
    requires Fixed(b, out, limits) && Collected(b, out, size, outs, limits)
    modifies b`numDeq, b`totalDeq, b`held, b`done
    modifies b.dev`inflight, b.dev`stalls, b.dev`returned, b.dev`calls, b.deqOps, b.opMem, b.dst
    ensures b.Inv(b.numEnq, b.unused) && b.held == b.numDeq && Fixed(b, out, limits) && b.Traced() && b.Quiet()
    ensures b.totalDeq == old(b.totalDeq) + b.numDeq && |b.done| == |old(b.done)| + b.numDeq
    ensures b.BurstDelivered(b.Config(), b.Snapshot(b.numEnq, b.unused), |old(b.done)|)
    ensures Distinct(b.done, b.totalBufs) && |outs| == |old(b.done)| && b.done[..|outs|] == old(b.done)
    ensures AllFinished(b.xform, b.dev.inflate, b.src[..], b.dst[..], b.done[..|outs|], outs)
    ensures Written(out[..], size, outs, limits, b.done)
    ensures Succeeded(b.dev, b.xform, b.src[..], b.counts, b.outSegSz, b.done[..|outs|])
    ensures InOneBurst(b) && Full(b, old(b.done), old(b.dev.inflight)) ==> Backwards(b.done, b.totalBufs)
    ensures b.dev.stalls <= old(b.dev.stalls)
    ensures b.numDeq == 0 && old(b.dev.inflight) != [] ==> b.dev.stalls < old(b.dev.stalls)
  {
    hide Burst.Traced, Good, AllReadable, Burst.BurstDelivered, Written, Bounded, AllFinished, Succeeded;
    ghost var from, before, written := |b.done|, b.dst[..], out[..];
    AsLong(b.xform, b.dev.inflate, b.src[..], before, b.done, outs);
    DoneFacts(b, from);
    b.Dequeue(b.burstSz);
    DoneFacts(b, from);
    assert b.done[..from] == old(b.done) && out[..] == written;
    FinishedKept(b.xform, b.dev.inflate, b.src[..], before, b.dst[..], b.done[..from], outs);
    assert from == 0 ==> b.done[from..] == b.done;
    WrittenLonger(out[..], size, outs, limits, old(b.done), b.done);
  }

  lemma AsLong(xform: Xform, inflate: seq<byte> -> Option<seq<byte>>, src: seq<Chain>, dst: seq<Chain>,
               done: seq<nat>, outs: seq<seq<byte>>)
    requires AllFinished(xform, inflate, src, dst, done, outs)
    ensures |outs| == |done|
  {
  }

  /** One dequeue with all that follows it: reading, trimming and release. */
  method Collect(b: Burst, out: array<byte>, size: nat, ghost outs: seq<seq<byte>>, ghost limits: seq<nat>)
    returns (exit: LoopExit, size': nat, ghost outs': seq<seq<byte>>)
    requires b.Inv(b.numEnq, b.unused) && b.held == 0 && b.Traced() && b.Polls(b.burstSz)
    requires Fixed(b, out, limits) && Collected(b, out, size, outs, limits)
    modifies b`numDeq, b`totalDeq, b`held, b`done, b`taken, b.pool`free
    modifies b.dev`inflight, b.dev`stalls, b.dev`returned, b.dev`calls, b.deqOps, b.opMem, b.dst, out
    ensures exit == Completed ==>
      && b.Inv(b.numEnq, b.unused) && b.held == 0 && Fixed(b, out, limits) && Collected(b, out, size', outs', limits)
      && b.totalDeq >= old(b.totalDeq) && b.Traced() && b.Quiet()
      && (b.totalDeq == old(b.totalDeq) && old(b.dev.inflight) != [] ==> b.dev.stalls < old(b.dev.stalls))
      && (InOneBurst(b) && Full(b, old(b.done), old(b.dev.inflight)) ==> Backwards(b.done, b.totalBufs))
    ensures b.dev.stalls <= old(b.dev.stalls)
    ensures exit == BadStatus ==> SomeEnds(Failure, b.dev, b.xform, b.src[..], b.counts, b.outSegSz)
    ensures exit == Failed ==> SomeEnds(OutOfSpace, b.dev, b.xform, b.src[..], b.counts, b.outSegSz)
    ensures exit != NullSegment
  {
    hide Burst.Traced, Good, AllReadable, Burst.BurstDelivered, Burst.Yields, Written, Bounded, AllFinished;
    hide Succeeded, SomeEnds;
    ghost var from := |b.done|;
    TakeDone(b, out, size, outs, limits);
    exit, size', outs' := ReadBurst(b, out, size, from, outs, limits);
    if exit != Completed {
      return;
    }
    assert outs'[..from] == outs;
    TrimBurst(b, from, outs');
    b.Release();
  }

  /** Staging and enqueueing leave what is collected as it is. */
  method PushBurst(b: Burst, out: array<byte>, ghost size: nat, ghost outs: seq<seq<byte>>, ghost limits: seq<nat>)
    returns (ok: bool)
    requires b.Inv(b.numEnq, b.unused) && b.held == 0 && b.remaining > 0 && b.Traced() && b.Quiet()
    requires Fixed(b, out, limits) && Collected(b, out, size, outs, limits)
    modifies b`taken, b`unused, b`remaining, b`totalEnq, b`numEnq, b.pool`free, b.ops, b.opMem, b.dst
    modifies b.dev`inflight, b.dev`stalls, b.dev`accepted, b.dev`calls
    ensures b.dev.healthy ==> ok
    ensures ok ==>
      && b.Inv(b.numEnq, b.unused) && b.held == 0 && Fixed(b, out, limits) && Collected(b, out, size, outs, limits)
      && b.remaining <= old(b.remaining) && b.Traced() && b.JustPushed()
      && (b.remaining == old(b.remaining) ==> b.dev.stalls < old(b.dev.stalls))
      && (InOneBurst(b) && old(Untouched(b)) ==> b.remaining == 0 && Full(b, b.done, b.dev.inflight))
    ensures b.dev.stalls <= old(b.dev.stalls)
  {
    hide Burst.Traced, Good, AllReadable, Written, Bounded, Succeeded, AllFinished, CompDevice.Lossless;
    ghost var before, written := b.dst[..], out[..];
    DoneFacts(b, |b.done|);
    var numOps;
    numOps, ok := b.Stage();
    if !ok {
      return;
    }
    FinishedKept(b.xform, b.dev.inflate, b.src[..], before, b.dst[..], b.done, outs);
    assert out[..] == written;
    ok := b.Enqueue(numOps);
  }

  /** Between two runs of a loop: all ops are in the pool, none in the device. */
  ghost predicate Idle(b: Burst)
    reads b, b.dev`inflight, b.pool`free
  {
    b.taken == 0 && b.held == 0 && multiset(b.pool.free) == b.pool.Objects() && b.dev.inflight == []
  }

  /** Every buffer has been served once; in order, if the device keeps the order. */
  ghost predicate ServedOnce(fifo: bool, order: seq<nat>, n: nat)
  {
    Permutation(order, n) && (fifo ==> order == Range(0, n))
  }

  /** `k` rounds, in each of which every buffer has been served once. */
  ghost predicate Rounds(fifo: bool, s: seq<nat>, n: nat, k: nat)
    decreases k
  {
    if k == 0 then s == []
    else |s| >= n && ServedOnce(fifo, s[|s| - n..], n) && Rounds(fifo, s[..|s| - n], n, k - 1)
  }

  /** The logs of a device. */
  datatype Logs = Logs(accepted: seq<nat>, returned: seq<nat>, calls: seq<Call>)

  ghost function LogsOf(dev: CompDevice): (l: Logs)
    reads dev`accepted, dev`returned, dev`calls
  {
    Logs(dev.accepted, dev.returned, dev.calls)
  }

  /**
   * The logs `l` of a device have grown to `l'` in `k` rounds over `n` buffers with bursts of
   * `burst`: in each the device has been handed all buffers in order and has returned each once,
   * and every call was that of a burst.
   */
  ghost predicate Grown(fifo: bool, l: Logs, l': Logs, n: nat, burst: nat, wide: bool, k: nat)
  {
    && l'.accepted == l.accepted + Repeat(Range(0, n), k)
    && l.returned <= l'.returned && Rounds(fifo, l'.returned[|l.returned|..], n, k)
    && l.calls <= l'.calls && WholeRounds(l'.calls[|l.calls|..], n, burst, wide, k)
  }

  /** So it has been since the logs were `l`. */
  ghost predicate Served(dev: CompDevice, l: Logs, n: nat, burst: nat, wide: bool, k: nat)
    reads dev`accepted, dev`returned, dev`calls
  {
    Grown(dev.fifo, l, LogsOf(dev), n, burst, wide, k)
  }

  lemma ServedNone(fifo: bool, l: Logs, n: nat, burst: nat, wide: bool)
    ensures Grown(fifo, l, l, n, burst, wide, 0)
  {
    NoCalls(n, burst, wide);
  }

  /** One round more. */
  lemma ServedAgain(dev: CompDevice, l: Logs, l': Logs, done: seq<nat>, n: nat, burst: nat, wide: bool, k: nat)
    requires Grown(dev.fifo, l, l', n, burst, wide, k)
    requires dev.accepted == l'.accepted + Range(0, n) && dev.returned == l'.returned + done
    requires ServedOnce(dev.fifo, done, n) && CalledOnce(dev, l'.calls, n, burst, wide)
    ensures Served(dev, l, n, burst, wide, k + 1)
  {
    hide Permutation, WholeRounds;
    PermutedSize(done, n);
    RoundMore(dev.fifo, l'.returned[|l.returned|..], done, n, k);
    assert dev.returned[|l.returned|..] == l'.returned[|l.returned|..] + done;
    assert Repeat(Range(0, n), k + 1) == Repeat(Range(0, n), k) + Range(0, n);
    ConcatAssociates(l.accepted, Repeat(Range(0, n), k), Range(0, n));
    CallsBehind(l.calls, l'.calls, dev.calls);
    RoundsBehindRounds(l'.calls[|l.calls|..], dev.calls[|l'.calls|..], n, burst, wide, k, 1);
  }

  lemma CallsBehind<T>(a: seq<T>, b: seq<T>, c: seq<T>)
    requires a <= b <= c
    ensures a <= c && c[|a|..] == b[|a|..] + c[|b|..]
  {
  }

  lemma PermutedSize(order: seq<nat>, n: nat)
    requires Permutation(order, n)
    ensures |order| == n
  {
    SameSize(order, Range(0, n));
  }

  lemma RoundMore(fifo: bool, s: seq<nat>, done: seq<nat>, n: nat, k: nat)
    requires Rounds(fifo, s, n, k) && ServedOnce(fifo, done, n) && |done| == n
    ensures Rounds(fifo, s + done, n, k + 1)
  {
    var t := s + done;
    assert t[|t| - n..] == done && t[..|t| - n] == s;
  }

  lemma {:induction false} RoundsConcat(fifo: bool, s: seq<nat>, t: seq<nat>, n: nat, j: nat, k: nat)
    requires Rounds(fifo, s, n, j) && Rounds(fifo, t, n, k)
    ensures Rounds(fifo, s + t, n, j + k)
    decreases k
  {
    if k == 0 {
      assert s + t == s;
    } else {
      hide Rounds, ServedOnce;
      var front, last := LastRound(fifo, t, n, k);
      RoundsConcat(fifo, s, front, n, j, k - 1);
      RoundBehind(fifo, s, front, last, n, j + k - 1);
    }
  }

  lemma RoundBehind(fifo: bool, s: seq<nat>, t: seq<nat>, last: seq<nat>, n: nat, k: nat)
    requires Rounds(fifo, s + t, n, k) && ServedOnce(fifo, last, n) && |last| == n
    ensures Rounds(fifo, s + (t + last), n, k + 1)
  {
    hide Rounds, ServedOnce;
    ConcatAssociates(s, t, last);
    RoundMore(fifo, s + t, last, n, k);
  }

  lemma LastRound(fifo: bool, t: seq<nat>, n: nat, k: nat) returns (front: seq<nat>, last: seq<nat>)
    requires Rounds(fifo, t, n, k) && k > 0
    ensures t == front + last && |last| == n && ServedOnce(fifo, last, n) && Rounds(fifo, front, n, k - 1)
  {
    hide ServedOnce;
    front, last := t[..|t| - n], t[|t| - n..];
  }

  /** More rounds after the logs were `l'`. */
  lemma ServedMore(dev: CompDevice, l: Logs, l': Logs, n: nat, burst: nat, wide: bool, j: nat, k: nat)
    requires Grown(dev.fifo, l, l', n, burst, wide, j) && Served(dev, l', n, burst, wide, k)
    ensures Served(dev, l, n, burst, wide, j + k)
  {
    hide WholeRounds;
    var more := dev.returned[|l'.returned|..];
    RoundsConcat(dev.fifo, l'.returned[|l.returned|..], more, n, j, k);
    assert dev.returned[|l.returned|..] == l'.returned[|l.returned|..] + more;
    RepeatMore(Range(0, n), j, k);
    ConcatAssociates(l.accepted, Repeat(Range(0, n), j), Repeat(Range(0, n), k));
    CallsBehind(l.calls, l'.calls, dev.calls);
    RoundsBehindRounds(l'.calls[|l.calls|..], dev.calls[|l'.calls|..], n, burst, wide, j, k);
  }

  /** "Dequeue the last operations": the loop that drains the device. */
  method Drain(b: Burst, out: array<byte>, size: nat, ghost outs: seq<seq<byte>>, ghost limits: seq<nat>)
    returns (exit: LoopExit, size': nat, ghost outs': seq<seq<byte>>)
    requires b.Inv(b.numEnq, b.unused) && b.held == 0 && b.remaining == 0 && b.Traced() && b.Quiet()
    requires Fixed(b, out, limits) && Collected(b, out, size, outs, limits)
    modifies b`numDeq, b`totalDeq, b`held, b`done, b`taken, b.pool`free
    modifies b.dev`inflight, b.dev`stalls, b.dev`returned, b.dev`calls, b.deqOps, b.opMem, b.dst, out
    ensures exit == Completed ==>
      && b.Inv(b.numEnq, b.unused) && b.held == 0 && b.totalDeq == b.totalBufs && b.Traced() && b.Quiet()
      && Fixed(b, out, limits) && Collected(b, out, size', outs', limits)
      && (old(b.totalDeq) == b.totalBufs ==> b.done == old(b.done))
    ensures Explains(exit, b.dev, b.xform, b.src[..], b.counts, b.outSegSz)
  {
    hide Burst.Inv;
    hide Burst.Traced, Good, Bounded, AllReadable, AllFinished, Written, Succeeded, SomeEnds;
    exit, size', outs' := Completed, size, outs;
    b.CountersAgree();
    while b.totalDeq < b.totalBufs
      invariant b.totalDeq + |b.dev.inflight| == b.totalEnq == b.totalBufs
      invariant b.Inv(b.numEnq, b.unused) && b.held == 0 && exit == Completed && b.Traced() && b.Quiet()
      invariant Fixed(b, out, limits) && Collected(b, out, size', outs', limits)
      invariant old(b.totalDeq) == b.totalBufs ==> b.totalDeq == b.totalBufs && b.done == old(b.done)
      decreases b.totalBufs - b.totalDeq, b.dev.stalls
    {
      exit, size', outs' := Collect(b, out, size', outs', limits);
      if exit != Completed {
        return;
      }
      b.CountersAgree();
      if b.numDeq == 0 {
        var errors := b.dev.ErrorCount();
        if errors > 0 {
          return Failed, size', outs';
        }
      }
    }
  }

  /** The loop that pushes all buffers through the device. */
  method Feed(b: Burst, out: array<byte>, ghost limits: seq<nat>)
    returns (exit: LoopExit, size: nat, ghost outs: seq<seq<byte>>)
    requires b.Inv(b.numEnq, b.unused) && b.held == 0 && b.Traced() && b.Quiet()
    requires Fixed(b, out, limits) && Collected(b, out, 0, [], limits)
    modifies b`taken, b`unused, b`remaining, b`totalEnq, b`numEnq, b.pool`free, b.ops, b.opMem, b.dst
    modifies b`numDeq, b`totalDeq, b`held, b`done, b.deqOps, out
    modifies b.dev
    ensures exit == Completed ==>
      && b.Inv(b.numEnq, b.unused) && b.held == 0 && b.remaining == 0 && b.Traced() && b.Quiet()
      && Fixed(b, out, limits) && Collected(b, out, size, outs, limits)
      && (InOneBurst(b) && old(Untouched(b)) ==> Backwards(b.done, b.totalBufs))
    ensures Explains(exit, b.dev, b.xform, b.src[..], b.counts, b.outSegSz)
  {
    hide Burst.Inv;
    hide Burst.Traced, Good, Bounded, AllReadable, AllFinished, Written, Succeeded, SomeEnds;
    exit, size, outs := Completed, 0, [];
    while b.remaining > 0
      invariant b.Inv(b.numEnq, b.unused) && b.held == 0 && exit == Completed && b.Traced() && b.Quiet()
      invariant Fixed(b, out, limits) && Collected(b, out, size, outs, limits)
      invariant InOneBurst(b) && old(Untouched(b)) ==>
                  Untouched(b) || (b.remaining == 0 && Backwards(b.done, b.totalBufs))
      decreases b.remaining, b.dev.stalls
    {
      var ok := PushBurst(b, out, size, outs, limits);
      if !ok {
        return Failed, size, outs;
      }
      exit, size, outs := Collect(b, out, size, outs, limits);
      if exit != Completed {
        return;
      }
    }
  }

  /** One iteration of main_loop. */
  method RunBursts(b: Burst, out: array<byte>, ghost limits: seq<nat>)
    returns (exit: LoopExit, size: nat, ghost outs: seq<seq<byte>>)
    requires b.Shape() && Idle(b) && AllReadable(b.src[..]) && WellSized(b.dst[..], b.outSegSz)
    requires b.roomSz == b.outSegSz && !b.wide
    requires out !in b.Footprint() && |limits| == b.totalBufs && Sum(limits) <= out.Length
    requires Bounded(limits, b.xform, b.dev.inflate, b.src[..], SegCounts(b.dst[..]), b.outSegSz)
    modifies b, b.pool`free, b.dev, b.ops, b.deqOps, b.opMem, b.dst, out
    ensures exit == Completed ==>
      && Idle(b) && ServedOnce(b.dev.fifo, b.done, b.totalBufs)
      && b.dev.accepted == old(b.dev.accepted) + Range(0, b.totalBufs)
      && b.dev.returned == old(b.dev.returned) + b.done
      && CalledOnce(b.dev, old(b.dev.calls), b.totalBufs, b.burstSz, false)
      && (InOneBurst(b) ==> Backwards(b.done, b.totalBufs))
      && AllFinished(b.xform, b.dev.inflate, b.src[..], b.dst[..], b.done, outs)
      && size <= out.Length && out[..size] == Concat(outs)
      && WellSized(b.dst[..], b.outSegSz) && SegCounts(b.dst[..]) == old(SegCounts(b.dst[..]))
    ensures Explains(exit, b.dev, b.xform, b.src[..], old(SegCounts(b.dst[..])), b.outSegSz)
    ensures exit == Completed ==> AlwaysFits(b.dev, b.xform, b.src[..], old(SegCounts(b.dst[..])), b.outSegSz)
  {
    hide Burst.Inv;
    hide CalledOnce, Burst.Traced, Good, Bounded, AlwaysFits, AllReadable, AllFinished, Written, Succeeded;
    hide SomeEnds, CompDevice.Lossless;
    b.StartIteration();
    NothingYet(b, out, limits);
    exit, size, outs := FeedAndDrain(b, out, limits);
    if exit == Completed {
      b.CountersAgree();
      b.IterationOver();
      b.OneRound();
      CollectedFacts(b, out, size, outs, limits);
      AllSucceeded(b.dev, b.xform, b.src[..], b.counts, b.outSegSz, b.done);
    }
  }

  /** The two loops of an iteration. */
  method FeedAndDrain(b: Burst, out: array<byte>, ghost limits: seq<nat>)
    returns (exit: LoopExit, size: nat, ghost outs: seq<seq<byte>>)
    requires b.Inv(b.numEnq, b.unused) && b.held == 0 && b.Traced() && b.Quiet() && Untouched(b)
    requires Fixed(b, out, limits) && Collected(b, out, 0, [], limits)
    modifies b`taken, b`unused, b`remaining, b`totalEnq, b`numEnq, b.pool`free, b.ops, b.opMem, b.dst
    modifies b`numDeq, b`totalDeq, b`held, b`done, b.deqOps, b.dev, out
    ensures exit == Completed ==>
      && b.Inv(b.numEnq, b.unused) && b.held == 0 && b.remaining == 0 && b.totalDeq == b.totalBufs
      && Collected(b, out, size, outs, limits) && b.Traced() && b.Quiet()
      && (InOneBurst(b) ==> Backwards(b.done, b.totalBufs))
    ensures Explains(exit, b.dev, b.xform, b.src[..], b.counts, b.outSegSz)
  {
    hide Burst.Inv, Burst.Traced, Bounded, AllReadable, AllFinished, Written, Succeeded, SomeEnds;
    exit, size, outs := Feed(b, out, limits);
    if exit == Completed {
      if InOneBurst(b) {
        DoneFacts(b, 0);
      }
      exit, size, outs := Drain(b, out, size, outs, limits);
    }
  }

  lemma CollectedFacts(b: Burst, out: array<byte>, size: nat, outs: seq<seq<byte>>, limits: seq<nat>)
    requires Collected(b, out, size, outs, limits)
    ensures size <= out.Length && out[..size] == Concat(outs)
    ensures AllFinished(b.xform, b.dev.inflate, b.src[..], b.dst[..], b.done, outs)
    ensures Succeeded(b.dev, b.xform, b.src[..], b.counts, b.outSegSz, b.done)
  {
  }

  lemma NothingYet(b: Burst, out: array<byte>, limits: seq<nat>)
    requires b.done == [] && b.src.Length == b.dst.Length
    ensures Collected(b, out, 0, [], limits)
  {
  }

  /** All chains of a completed loop are finished, and the output is their content in order. */
  lemma OutputInOrder(xform: Xform, inflate: seq<byte> -> Option<seq<byte>>, src: seq<Chain>, dst: seq<Chain>,
                      order: seq<nat>, outs: seq<seq<byte>>)
    requires AllFinished(xform, inflate, src, dst, order, outs)
    requires multiset(order) == multiset(Range(0, |dst|))
    ensures forall b :: 0 <= b < |dst| ==> Finished(xform, inflate, src[b], dst[b])
    ensures AllReadable(dst) && Distinct(order, |dst|) && |order| == |dst|
    ensures outs == Pick(Payloads(dst), order)
  {
    PermutationIsDistinct(order, |dst|);
    forall b | 0 <= b < |dst| ensures Finished(xform, inflate, src[b], dst[b]) {
      assert b == Range(0, |dst|)[b];
      assert b in multiset(order);
      assert b in order;
    }
    assert outs == Pick(Payloads(dst), order);
  }

  lemma {:induction false} SumScaled(counts: seq<nat>, k: nat)
    ensures Sum(Scaled(counts, k)) == Sum(counts) * k
  {
    if counts != [] {
      var last := |counts| - 1;
      assert Scaled(counts, k)[..last] == Scaled(counts[..last], k);
      SumScaled(counts[..last], k);
    }
  }

  ghost function Scaled(counts: seq<nat>, k: nat): (s: seq<nat>)
    ensures |s| == |counts| && forall b :: 0 <= b < |s| ==> s[b] == counts[b] * k
  {
    seq(|counts|, b requires 0 <= b < |counts| => counts[b] * k)
  }

  ghost function Lengths<T>(parts: seq<seq<T>>): (n: seq<nat>)
    ensures |n| == |parts| && forall b :: 0 <= b < |n| ==> n[b] == |parts[b]|
  {
    seq(|parts|, b requires 0 <= b < |parts| => |parts[b]|)
  }

  /** How compressing chunk `b` of the input ends. */
  ghost function ChunkStatus(td: TestData, dev: CompDevice, b: nat): (s: Status)
    requires td.Valid() && b < td.TotalBufs()
  {
    var chunk := Chunks(td)[b];
    dev.StatusOf(Compress, b, chunk, CompressedRoom(td, |chunk|))
  }

  /** The room for what `n` bytes of input are compressed to. */
  function CompressedRoom(td: TestData, n: nat): (room: nat)
    requires td.segSz > 0
  {
    DivCeil(n, td.segSz) * BufSize(td.segSz)
  }

  /** The device compresses every chunk into as many segments as the chunk has. */
  ghost predicate AllChunksFit(td: TestData, dev: CompDevice)
    requires td.Valid()
  {
    forall b :: 0 <= b < td.TotalBufs() ==> ChunkStatus(td, dev, b) == Success
  }

  ghost predicate SomeChunkEnds(status: Status, td: TestData, dev: CompDevice)
    requires td.Valid()
  {
    exists b :: 0 <= b < td.TotalBufs() && ChunkStatus(td, dev, b) == status
  }

  /** How the compression loop ends, from the input and the device. */
  ghost predicate ChunksExplain(exit: LoopExit, td: TestData, dev: CompDevice)
    requires td.Valid()
  {
    && (exit == Completed ==> AllChunksFit(td, dev))
    && (exit == BadStatus ==> SomeChunkEnds(Failure, td, dev))
    && (exit == Failed && dev.healthy ==> SomeChunkEnds(OutOfSpace, td, dev))
    && exit != NullSegment
  }

  /** Three questions about the chunks decide how a healthy device ends the loop. */
  lemma ExitDecided(exit: LoopExit, td: TestData, dev: CompDevice)
    requires td.Valid() && ChunksExplain(exit, td, dev) && dev.healthy
    ensures exit == Completed <==> AllChunksFit(td, dev)
    ensures !SomeChunkEnds(OutOfSpace, td, dev) && SomeChunkEnds(Failure, td, dev) ==> exit == BadStatus
    ensures SomeChunkEnds(OutOfSpace, td, dev) && !SomeChunkEnds(Failure, td, dev) ==> exit == Failed
  {
  }

  /** Decompressing the chains gives the chunks. */
  ghost predicate StandFor(inflate: seq<byte> -> Option<seq<byte>>, comp: seq<Chain>, chunks: seq<seq<byte>>)
  {
    && AllReadable(comp) && |comp| == |chunks|
    && forall b :: 0 <= b < |comp| ==> inflate(Payload(comp[b])) == Some(chunks[b])
  }

  class VerifyCtx {
    const td: TestData
    const mem: MemResources
    const dev: CompDevice
    var compDataSz: nat
    var decompDataSz: nat

    constructor (td: TestData, mem: MemResources, dev: CompDevice)
      ensures this.td == td && this.mem == mem && this.dev == dev
    {
      this.td, this.mem, this.dev := td, mem, dev;
      compDataSz, decompDataSz := 0, 0;
    }

    function Src(xform: Xform): (a: array<Chain>) {
      if xform == Compress then mem.decompBufs else mem.compBufs
    }

    function Dst(xform: Xform): (a: array<Chain>) {
      if xform == Compress then mem.compBufs else mem.decompBufs
    }

    function Out(xform: Xform): (a: array<byte>) {
      if xform == Compress then mem.compressedData else mem.decompressedData
    }

    function OutSegSz(xform: Xform): (n: nat) {
      if xform == Compress then mem.outSegSz
      else if td.testOp != DecompressOnly then td.segSz else mem.outSegSz
    }

    /** No operation is under way. */
    ghost predicate Ready()
      reads dev`inflight, mem.opPool`free
    {
      && td.Valid() && mem.Valid(td) && dev.Lossless() && dev.inflight == []
      && multiset(mem.opPool.free) == mem.opPool.Objects()
    }

    /** The chains and the output memory suit the direction. */
    ghost predicate Prepared(xform: Xform, limits: seq<nat>)
      reads mem.compBufs, mem.decompBufs
    {
      && AllReadable(Src(xform)[..]) && WellSized(Dst(xform)[..], OutSegSz(xform))
      && |limits| == mem.totalBufs && Sum(limits) <= Out(xform).Length
      && Bounded(limits, xform, dev.inflate, Src(xform)[..], SegCounts(Dst(xform)[..]), OutSegSz(xform))
    }

    /** The arrays at the head of main_loop, and the ops' memory. */
    method NewBurst(xform: Xform) returns (b: Burst)
      requires Ready() && Src(xform).Length == Dst(xform).Length
      ensures fresh(b) && fresh(b.ops) && fresh(b.deqOps) && fresh(b.opMem)
      ensures b.pool == mem.opPool && b.dev == dev && b.src == Src(xform) && b.dst == Dst(xform)
      ensures b.xform == xform && b.outSegSz == b.roomSz == OutSegSz(xform) && b.burstSz == td.burstSz && !b.wide
      ensures b.totalBufs == mem.totalBufs && b.Shape() && b.taken == b.held == 0
    {
      var ops := new Obj[mem.totalBufs](_ => 0);
      var deqOps := new Obj[mem.totalBufs](_ => 0);
      var opMem := new CompOp[2 * mem.totalBufs](_ => CompOp(0, 0, 0, 0, xform, NotProcessed, 0));
      b := new Burst(mem.opPool, dev, ops, deqOps, opMem, Src(xform), Dst(xform), xform,
                     OutSegSz(xform), OutSegSz(xform), td.burstSz, false);
    }

    /** All buffers come back in one burst, the last one first. */
    ghost predicate TurnedAround()
    {
      dev.swift && dev.NewestFirst() && mem.totalBufs <= td.burstSz
    }

    /** main_loop. The device's log tells the completion order. */
    method MainLoop(xform: Xform, ghost limits: seq<nat>) returns (exit: LoopExit, ghost order: seq<nat>)
      requires Ready() && Prepared(xform, limits)
      modifies this, dev, mem.opPool`free, Dst(xform), Out(xform)
      ensures exit == Completed ==>
        && Ready() && ServedOnce(dev.fifo, order, mem.totalBufs) && |order| == mem.totalBufs
        && dev.accepted == old(dev.accepted) + Range(0, mem.totalBufs) && dev.returned == old(dev.returned) + order
        && CalledOnce(dev, old(dev.calls), mem.totalBufs, td.burstSz, false)
        && (TurnedAround() ==> Backwards(order, mem.totalBufs))
        && (forall b :: 0 <= b < mem.totalBufs ==>
              Finished(xform, dev.inflate, Src(xform)[b], Dst(xform)[b]))
        && AllReadable(Dst(xform)[..]) && Distinct(order, Dst(xform).Length)
        && WellSized(Dst(xform)[..], OutSegSz(xform)) && SegCounts(Dst(xform)[..]) == old(SegCounts(Dst(xform)[..]))
        && var size := if xform == Compress then compDataSz else decompDataSz;
        && size <= Out(xform).Length
        && Out(xform)[..size] == Concat(Pick(Payloads(Dst(xform)[..]), order))
      ensures exit != Completed ==> compDataSz == old(compDataSz) && decompDataSz == old(decompDataSz)
      ensures Explains(exit, dev, xform, Src(xform)[..], old(SegCounts(Dst(xform)[..])), OutSegSz(xform))
      ensures exit == Completed ==>
        AlwaysFits(dev, xform, Src(xform)[..], old(SegCounts(Dst(xform)[..])), OutSegSz(xform))
      ensures if xform == Compress then decompDataSz == old(decompDataSz) else compDataSz == old(compDataSz)
    {
      hide Bounded, AlwaysFits, AllFinished, AllReadable, Finished, Converted, WellSized, Explains;
      var b := NewBurst(xform);
      var size; ghost var outs;
      exit, size, outs := RunBursts(b, Out(xform), limits);
      order := b.done;
      if exit == Completed {
        OutputInOrder(xform, dev.inflate, b.src[..], b.dst[..], order, outs);
        if xform == Compress {
          compDataSz := size;
        } else {
          decompDataSz := size;
        }
      }
    }

    ghost function CompressLimits(): (limits: seq<nat>)
      reads mem.compBufs
    {
      Scaled(SegCounts(mem.compBufs[..]), mem.outSegSz)
    }

    lemma IsLoaded()
      requires td.Valid() && mem.Loaded(td)
      ensures LoadedChains(td, mem.outSegSz, mem.decompBufs[..], mem.compBufs[..])
    {
    }

    lemma LoadedFacts()
      requires td.Valid() && mem.Loaded(td)
      ensures AllReadable(mem.decompBufs[..]) && Payloads(mem.decompBufs[..]) == Chunks(td)
      ensures mem.decompBufs.Length == mem.compBufs.Length == td.TotalBufs()
    {
      hide LoadedPair;
    }

    /** The compressed data area is large enough for whatever fits the chains. */
    lemma ReadyToCompress()
      requires Ready() && td.testOp != DecompressOnly && mem.Loaded(td)
      ensures Prepared(Compress, CompressLimits())
      ensures Payloads(mem.decompBufs[..]) == Chunks(td)
    {
      hide Bounded, AllReadable, MemResources.Loaded, WellSized, SegCounts;
      LoadedFacts();
      OutputsFit();
      BoundedByCapacity(Compress, dev.inflate, mem.decompBufs[..], SegCounts(mem.compBufs[..]), mem.outSegSz);
    }

    /** All output chains together fit the compressed data area. */
    lemma OutputsFit()
      requires td.Valid() && mem.Valid(td) && td.testOp != DecompressOnly && mem.Loaded(td)
      ensures WellSized(mem.compBufs[..], mem.outSegSz)
      ensures Sum(CompressLimits()) <= mem.compressedData.Length
    {
      forall b | 0 <= b < mem.totalBufs
        ensures mem.compBufs[b].segs != [] && Uniform(mem.compBufs[b].segs, mem.outSegSz)
        ensures |mem.compBufs[b].segs| == |mem.decompBufs[b].segs|
      {
        assert LoadedPair(td, mem.outSegSz, b, mem.decompBufs[b], mem.compBufs[b]);
      }
      assert SegCounts(mem.compBufs[..]) == SegCounts(mem.decompBufs[..]);
      SumScaled(SegCounts(mem.compBufs[..]), mem.outSegSz);
      assert mem.totalSegs * mem.outSegSz == mem.outSegSz * mem.totalSegs;
    }

    /** Completed compression makes decompression of every chain give its chunk back. */
    lemma ReadyToDecompress()
      requires Ready() && td.testOp == CompressDecompress && mem.Loaded(td)
      requires StandFor(dev.inflate, mem.compBufs[..], Chunks(td))
      ensures Prepared(Decompress, Lengths(Chunks(td)))
      ensures AlwaysFits(dev, Decompress, mem.compBufs[..], SegCounts(mem.decompBufs[..]), td.segSz)
    {
      hide Bounded, AlwaysFits, AllReadable, MemResources.Loaded;
      ChunksFit();
      BoundedByContent(dev, mem.compBufs[..], Chunks(td), SegCounts(mem.decompBufs[..]), td.segSz);
      assert WellSized(Dst(Decompress)[..], OutSegSz(Decompress));
      assert Sum(Lengths(Chunks(td))) <= Out(Decompress).Length;
      assert Bounded(Lengths(Chunks(td)), Decompress, dev.inflate, Src(Decompress)[..],
                     SegCounts(Dst(Decompress)[..]), OutSegSz(Decompress));
    }

    /** Every chunk fits the chain it came from, and all of them the decompressed data area. */
    lemma ChunksFit()
      requires td.Valid() && mem.Valid(td) && td.testOp != DecompressOnly && mem.Loaded(td)
      ensures WellSized(mem.decompBufs[..], td.segSz)
      ensures Sum(Lengths(Chunks(td))) == |td.input|
      ensures forall b :: 0 <= b < mem.totalBufs ==> |Chunks(td)[b]| <= |mem.decompBufs[b].segs| * td.segSz
    {
      ChunksAreInput(td);
      ConcatLength(Chunks(td), Lengths(Chunks(td)));
      forall b | 0 <= b < mem.totalBufs
        ensures |Chunks(td)[b]| <= |mem.decompBufs[b].segs| * td.segSz
        ensures mem.decompBufs[b].segs != [] && Uniform(mem.decompBufs[b].segs, td.segSz)
      {
        assert LoadedPair(td, mem.outSegSz, b, mem.decompBufs[b], mem.compBufs[b]);
        DataLenBound(mem.decompBufs[b].segs, td.segSz);
      }
    }

    /** What the loop can run into is what the chunks can run into. */
    lemma OutcomesOfChunks()
      requires td.Valid() && mem.Valid(td) && mem.Loaded(td)
      ensures var src, counts := mem.decompBufs[..], SegCounts(mem.compBufs[..]);
              && (AlwaysFits(dev, Compress, src, counts, mem.outSegSz) <==> AllChunksFit(td, dev))
              && forall s :: SomeEnds(s, dev, Compress, src, counts, mem.outSegSz) ==> SomeChunkEnds(s, td, dev)
    {
      hide MemResources.Loaded, Outcome, ChunkStatus;
      var src, counts := mem.decompBufs[..], SegCounts(mem.compBufs[..]);
      forall b | 0 <= b < td.TotalBufs()
        ensures b < |src| && b < |counts| && Readable(src[b])
        ensures Outcome(dev, Compress, src, counts, mem.outSegSz, b) == ChunkStatus(td, dev, b)
      {
        OutcomeOfChunk(b);
      }
    }

    lemma OutcomeOfChunk(b: nat)
      requires td.Valid() && mem.Valid(td) && mem.Loaded(td) && b < td.TotalBufs()
      ensures b < mem.decompBufs.Length == mem.compBufs.Length && Readable(mem.decompBufs[b])
      ensures Outcome(dev, Compress, mem.decompBufs[..], SegCounts(mem.compBufs[..]), mem.outSegSz, b)
           == ChunkStatus(td, dev, b)
    {
      assert LoadedPair(td, mem.outSegSz, b, mem.decompBufs[b], mem.compBufs[b]);
    }

    /** The chains are loaded whatever compression writes into its output chains. */
    lemma StillLoaded(comp: seq<Chain>)
      requires td.Valid() && LoadedChains(td, mem.outSegSz, mem.decompBufs[..], comp)
      requires WellSized(mem.compBufs[..], mem.outSegSz) && SegCounts(mem.compBufs[..]) == SegCounts(comp)
      requires |comp| == mem.compBufs.Length
      ensures mem.Loaded(td)
    {
      forall i | 0 <= i < |comp| ensures LoadedPair(td, mem.outSegSz, i, mem.decompBufs[i], mem.compBufs[i]) {
        assert LoadedPair(td, mem.outSegSz, i, mem.decompBufs[i], comp[i]);
        assert SegCounts(comp)[i] == SegCounts(mem.compBufs[..])[i];
      }
    }

    /** They are loaded again when decompression has given the chunks back. */
    lemma LoadedAgain(decomp: seq<Chain>)
      requires td.Valid() && LoadedChains(td, mem.outSegSz, decomp, mem.compBufs[..])
      requires WellSized(mem.decompBufs[..], td.segSz) && SegCounts(mem.decompBufs[..]) == SegCounts(decomp)
      requires |decomp| == mem.decompBufs.Length && AllReadable(mem.decompBufs[..])
      requires Payloads(mem.decompBufs[..]) == Chunks(td)
      ensures mem.Loaded(td)
    {
      forall i | 0 <= i < |decomp| ensures LoadedPair(td, mem.outSegSz, i, mem.decompBufs[i], mem.compBufs[i]) {
        assert LoadedPair(td, mem.outSegSz, i, decomp[i], mem.compBufs[i]);
        assert SegCounts(decomp)[i] == SegCounts(mem.decompBufs[..])[i];
        assert Payloads(mem.decompBufs[..])[i] == Payload(mem.decompBufs[i]);
      }
    }

    /** The compression half of the runner. */
    method CompressPhase() returns (exit: LoopExit, ghost order: seq<nat>)
      requires Ready() && td.testOp != DecompressOnly && mem.Loaded(td)
      modifies this, dev, mem.opPool`free, mem.compBufs, mem.compressedData
      ensures ChunksExplain(exit, td, dev) && exit != NullSegment
      ensures exit == Completed ==>
        && Ready() && mem.Loaded(td) && StandFor(dev.inflate, mem.compBufs[..], Chunks(td))
        && ServedOnce(dev.fifo, order, mem.totalBufs)
        && dev.accepted == old(dev.accepted) + Range(0, mem.totalBufs) && dev.returned == old(dev.returned) + order
        && CalledOnce(dev, old(dev.calls), mem.totalBufs, td.burstSz, false)
    {
      hide Bounded, AlwaysFits, WellSized, SomeEnds, AllChunksFit, SomeChunkEnds, SegCounts, Finished;
      hide MemResources.Loaded, LoadedChains;
      ReadyToCompress();
      OutcomesOfChunks();
      ghost var decomp, comp := mem.decompBufs[..], mem.compBufs[..];
      IsLoaded();
      exit, order := MainLoop(Compress, CompressLimits());
      if exit == Completed {
        assert mem.decompBufs[..] == decomp;
        assert LoadedChains(td, mem.outSegSz, mem.decompBufs[..], comp);
        StillLoaded(comp);
        ChunksCompressed();
      }
    }

    lemma ChunksCompressed()
      requires td.Valid() && mem.Loaded(td) && mem.Valid(td)
      requires forall b :: 0 <= b < mem.totalBufs ==>
                 Finished(Compress, dev.inflate, mem.decompBufs[b], mem.compBufs[b])
      ensures StandFor(dev.inflate, mem.compBufs[..], Chunks(td))
    {
      hide LoadedPair;
      forall b | 0 <= b < mem.totalBufs
        ensures Readable(mem.compBufs[b]) && dev.inflate(Payload(mem.compBufs[b])) == Some(Chunks(td)[b])
      {
        assert Finished(Compress, dev.inflate, mem.decompBufs[b], mem.compBufs[b]);
        assert Payloads(mem.decompBufs[..])[b] == Payload(mem.decompBufs[b]);
      }
    }

    /** The decompression half: the chunks come out in the order of completion. */
    method DecompressPhase() returns (exit: LoopExit, ghost order: seq<nat>)
      requires Ready() && td.testOp == CompressDecompress && mem.Loaded(td)
      requires StandFor(dev.inflate, mem.compBufs[..], Chunks(td))
      modifies this, dev, mem.opPool`free, mem.decompBufs, mem.decompressedData
      ensures exit in {Completed, Failed} && (dev.healthy ==> exit == Completed)
      ensures exit == Completed ==>
        && Ready() && mem.Loaded(td) && ServedOnce(dev.fifo, order, mem.totalBufs) && Distinct(order, mem.totalBufs)
        && dev.accepted == old(dev.accepted) + Range(0, mem.totalBufs) && dev.returned == old(dev.returned) + order
        && CalledOnce(dev, old(dev.calls), mem.totalBufs, td.burstSz, false)
        && (TurnedAround() ==> Backwards(order, mem.totalBufs))
        && decompDataSz == |td.input| == mem.decompressedData.Length
        && mem.decompressedData[..] == Concat(Pick(Chunks(td), order))
    {
      hide Bounded, AlwaysFits, WellSized, SegCounts, Converted, Finished, MemResources.Loaded, LoadedChains;
      IsLoaded();
      ReadyToDecompress();
      ghost var src, decomp, counts := mem.compBufs[..], mem.decompBufs[..], SegCounts(mem.decompBufs[..]);
      exit, order := MainLoop(Decompress, Lengths(Chunks(td)));
      NoReason(exit, dev, Decompress, src, counts, td.segSz);
      if exit == Completed {
        ChunksBack(dev.inflate, mem.compBufs[..], mem.decompBufs[..], Chunks(td), order);
        assert LoadedChains(td, mem.outSegSz, decomp, mem.compBufs[..]);
        LoadedAgain(decomp);
        ChunksAreInput(td);
        assert mem.decompressedData[..decompDataSz] == Concat(Pick(Chunks(td), order));
      }
    }

    /**
     * cperf_verify_test_runner; 0 is EXIT_SUCCESS and 1 EXIT_FAILURE. The device's log tells the
     * orders in which the buffers have come back from the two phases, and the second of them
     * decides. No value is given for the run in which an op fails without lack of space while
     * compressing: the source then goes on to decompress chains that were never finished.
     */
    method Run()
      returns (ret: Option<int>, comp: LoopExit, decomp: LoopExit, ghost first: seq<nat>, ghost order: seq<nat>)
      requires Ready() && td.testOp != DecompressOnly && mem.Loaded(td)
      modifies this, dev, mem.opPool`free
      modifies mem.compBufs, mem.compressedData, mem.decompBufs, mem.decompressedData
      ensures ChunksExplain(comp, td, dev)
      ensures comp == Failed ==> ret == Some(1)
      ensures td.testOp == CompressOnly && comp != Failed ==> ret == Some(0)
      ensures td.testOp == CompressDecompress ==>
        && (comp == BadStatus <==> ret == None)
        && (comp == Completed ==> decomp in {Completed, Failed} && (dev.healthy ==> decomp == Completed))
        && (comp == Completed && decomp == Failed ==> ret == Some(1))
        && (comp == Completed && decomp == Completed ==>
              && ServedOnce(dev.fifo, order, mem.totalBufs) && Distinct(order, mem.totalBufs)
              && (TurnedAround() ==> Backwards(order, mem.totalBufs))
              && mem.decompressedData[..] == Concat(Pick(Chunks(td), order))
              && (ret == Some(0) <==> Concat(Pick(Chunks(td), order)) == td.input)
              && ret in {Some(0), Some(1)}
              && (dev.fifo || Commute(Chunks(td)) ==> ret == Some(0)))
      ensures comp == Completed && (td.testOp == CompressDecompress ==> decomp == Completed) ==>
        && Ready() && mem.Loaded(td) && ServedOnce(dev.fifo, first, mem.totalBufs)
        && (td.testOp == CompressOnly ==> order == [])
        && dev.returned == old(dev.returned) + first + order
        && Served(dev, old(LogsOf(dev)), mem.totalBufs, td.burstSz, false, Passes(td))
    {
      hide MemResources.Loaded, AllReadable, ChunksExplain, Repeat, Concat, Distinct, Permutation, Payload, Commute;
      hide Backwards, Grown, CalledOnce;
      decomp, first, order := Completed, [], [];
      ghost var l, n, burst := LogsOf(dev), mem.totalBufs, td.burstSz;
      ServedNone(dev.fifo, l, n, burst, false);
      comp, first := CompressPhase();
      if comp.Res() < 0 {
        return Some(1), comp, decomp, first, order;
      }
      if comp == Completed {
        ServedAgain(dev, l, l, first, n, burst, false, 0);
      }
      if td.testOp == CompressOnly {
        return Some(0), comp, decomp, first, order;
      }
      if comp == BadStatus {
        return None, comp, decomp, first, order;
      }
      ghost var l' := LogsOf(dev);
      decomp, order := DecompressPhase();
      if decomp.Res() < 0 {
        return Some(1), comp, decomp, first, order;
      }
      ServedAgain(dev, l, l', order, n, burst, false, 1);
      OrderAsGiven(td, dev.fifo, order);
      if decompDataSz != |td.input| {
        ret := Some(1);
      } else if mem.decompressedData[..decompDataSz] != td.input {
        ret := Some(1);
      } else {
        ret := Some(0);
      }
    }

    /**
     * The runner of a test that only decompresses. There is nothing to compare with, and an op
     * that fails goes unnoticed: on a healthy device the loop completes exactly if the input is
     * a stream whose content fits, and the result is an error exactly if the content does not.
     */
    method RunDecompressOnly() returns (ret: int, decomp: LoopExit)
      requires Ready() && td.testOp == DecompressOnly && mem.PreparedToDecompress(td)
      modifies this, dev, mem.opPool`free, mem.decompBufs, mem.decompressedData
      ensures ret == (if decomp == Failed then 1 else 0)
      ensures decomp == Completed ==>
        && Ready() && mem.PreparedToDecompress(td) && 0 <= decompDataSz <= mem.decompressedData.Length
        && dev.inflate(td.input) == Some(mem.decompressedData[..decompDataSz])
      ensures decomp == BadStatus ==> dev.inflate(td.input) == None
      ensures dev.healthy ==>
        var y := dev.inflate(td.input);
        decomp == if y == None then BadStatus
                  else if |y.value| > td.maxSglSegs * mem.outSegSz then Failed
                  else Completed
    {
      hide WellSized, AlwaysFits, Explains, Outcome, Bounded, AllReadable, Converted, Concat, SegCounts, Distinct;
      ghost var limits, order, input := [td.maxSglSegs * mem.outSegSz], [], mem.compBufs[0];
      SingleChain(limits);
      decomp, order := MainLoop(Decompress, limits);
      SingleExplained(decomp, dev, input, td.maxSglSegs, mem.outSegSz);
      if decomp == Completed {
        SingleContent(order);
        StillPrepared(mem.decompBufs[..]);
      }
      ret := if decomp.Res() < 0 then 1 else 0;
    }

    lemma SingleChain(limits: seq<nat>)
      requires Ready() && td.testOp == DecompressOnly && mem.PreparedToDecompress(td)
      requires limits == [td.maxSglSegs * mem.outSegSz]
      ensures Prepared(Decompress, limits)
      ensures mem.compBufs[..] == [mem.compBufs[0]] && SegCounts(mem.decompBufs[..]) == [td.maxSglSegs]
      ensures Readable(mem.compBufs[0]) && Payload(mem.compBufs[0]) == td.input
    {
      hide Bounded;
      assert mem.compBufs[..] == [mem.compBufs[0]] && mem.decompBufs[..] == [mem.decompBufs[0]];
      assert SegCounts(mem.decompBufs[..]) == [td.maxSglSegs];
      assert Scaled([td.maxSglSegs], mem.outSegSz) == limits;
      BoundedByCapacity(Decompress, dev.inflate, mem.compBufs[..], [td.maxSglSegs], mem.outSegSz);
      SumOne(limits[0]);
      TotalSegsOne();
    }

    /** A loop keeps the chains prepared, as it keeps their sizes. */
    lemma StillPrepared(decomp: seq<Chain>)
      requires decomp == mem.decompBufs[..] && WellSized(decomp, mem.outSegSz) && SegCounts(decomp) == [td.maxSglSegs]
      requires mem.compBufs.Length == mem.decompBufs.Length == mem.totalBufs && HoldsInput(td, mem.compBufs[0])
      ensures mem.PreparedToDecompress(td)
    {
      assert |SegCounts(decomp)| == 1 && SegCounts(decomp)[0] == |decomp[0].segs|;
    }

    lemma SingleContent(order: seq<nat>)
      requires mem.compBufs.Length == mem.decompBufs.Length == |order| == 1 && Distinct(order, 1)
      requires Finished(Decompress, dev.inflate, mem.compBufs[0], mem.decompBufs[0])
      requires AllReadable(mem.decompBufs[..])
      ensures dev.inflate(Payload(mem.compBufs[0])) == Some(Concat(Pick(Payloads(mem.decompBufs[..]), order)))
    {
      OneInOrder(Payloads(mem.decompBufs[..]), order);
    }

    lemma TotalSegsOne()
      requires td.Valid() && mem.Valid(td) && td.testOp == DecompressOnly
      ensures td.maxSglSegs * mem.outSegSz <= mem.decompressedData.Length
    {
      assert mem.totalSegs * mem.outSegSz == mem.outSegSz * mem.totalSegs;
    }
  }

  /** How often one test hands all buffers to the device. */
  ghost function Passes(td: TestData): (n: nat)
  {
    if td.testOp == CompressDecompress then 2 else 1
  }

  lemma SumOne(n: nat)
    ensures Sum([n]) == n
  {
    assert Sum([n]) == Sum([n][..0]) + n;
  }

  /** With one buffer its op decides. */
  lemma SingleExplained(exit: LoopExit, dev: CompDevice, input: Chain, count: nat, outSegSz: nat)
    requires Readable(input) && Explains(exit, dev, Decompress, [input], [count], outSegSz)
    requires exit == Completed ==> AlwaysFits(dev, Decompress, [input], [count], outSegSz)
    ensures var status := dev.StatusOf(Decompress, 0, Payload(input), count * outSegSz);
            && exit != NullSegment && (exit == Completed ==> status == Success)
            && (exit == BadStatus ==> status == Failure)
            && (dev.healthy && exit == Failed ==> status == OutOfSpace)
  {
    assert Outcome(dev, Decompress, [input], [count], outSegSz, 0)
        == dev.StatusOf(Decompress, 0, Payload(input), count * outSegSz);
  }

  lemma OneInOrder<T>(parts: seq<seq<T>>, order: seq<nat>)
    requires |parts| == 1 && |order| == 1 && Distinct(order, 1)
    ensures Concat(Pick(parts, order)) == parts[0]
  {
    assert Pick(parts, order) == parts;
    assert Concat(parts[..0]) == [];
  }

  /**
   * The test from its options to its result: cperf_verify_test_constructor and the runner. On a
   * healthy device it gets to the comparison exactly if every chunk fits. Then it succeeds exactly
   * if the chunks give the input in the order of the last buffers in the device's log, as they do
   * if the device keeps the order or the order does not matter.
   */
  method VerifyTest(td: TestData, dev: CompDevice)
    returns (ret: Option<int>, comp: LoopExit, decomp: LoopExit, ghost first: seq<nat>, ghost order: seq<nat>)
    requires td.Valid() && td.testOp == CompressDecompress && dev.Lossless() && dev.inflight == []
    modifies dev
    ensures ChunksExplain(comp, td, dev)
    ensures dev.healthy ==> (comp == Completed <==> AllChunksFit(td, dev))
    ensures dev.healthy && AllChunksFit(td, dev) && (dev.fifo || Commute(Chunks(td))) ==> ret == Some(0)
    ensures dev.healthy && AllChunksFit(td, dev) ==>
      && Distinct(order, |Chunks(td)|)
      && ret == if Concat(Pick(Chunks(td), order)) == td.input then Some(0) else Some(1)
    ensures comp == Failed ==> ret == Some(1)
    ensures comp == Completed ==> decomp in {Completed, Failed} && (dev.healthy ==> decomp == Completed)
    ensures comp == Completed && decomp == Failed ==> ret == Some(1)
    ensures comp == Completed && decomp == Completed ==>
      && ServedOnce(dev.fifo, first, td.TotalBufs()) && ServedOnce(dev.fifo, order, td.TotalBufs())
      && dev.returned == old(dev.returned) + first + order
      && Served(dev, old(LogsOf(dev)), td.TotalBufs(), td.burstSz, false, 2)
      && (dev.swift && dev.NewestFirst() && td.TotalBufs() <= td.burstSz ==> Backwards(order, td.TotalBufs()))
      && Distinct(order, |Chunks(td)|)
      && (ret == Some(0) <==> Concat(Pick(Chunks(td), order)) == td.input)
      && (dev.fifo ==> ret == Some(0))
  {
    hide WellSized, MemResources.Loaded, Commute, ChunksExplain, Concat, Permutation, Grown, Backwards;
    var mem := new MemResources(td);
    var ok := mem.PrepareBufs(td);
    var ctx := new VerifyCtx(td, mem, dev);
    ret, comp, decomp, first, order := ctx.Run();
    if dev.healthy {
      ExitDecided(comp, td, dev);
    }
  }

  lemma OrderAsGiven(td: TestData, fifo: bool, order: seq<nat>)
    requires td.Valid() && td.testOp == CompressDecompress
    requires ServedOnce(fifo, order, td.TotalBufs()) && Distinct(order, td.TotalBufs())
    ensures Concat(Chunks(td)) == td.input
    ensures fifo || Commute(Chunks(td)) ==> Concat(Pick(Chunks(td), order)) == td.input
  {
    ChunksAreInput(td);
    if fifo {
      PickAll(Chunks(td));
    } else if Commute(Chunks(td)) {
      CommutingParts(Chunks(td), order);
    }
  }

  /** The test compares equal for every order of completion exactly if any two chunks commute. */
  lemma OrderMattersExactly(td: TestData)
    requires td.Valid() && td.testOp == CompressDecompress
    ensures SameInAnyOrder(Chunks(td)) <==> Commute(Chunks(td))
    ensures forall order :: Permutation(order, td.TotalBufs()) && InOrder(Chunks(td), order) ==>
              Concat(Pick(Chunks(td), order)) == td.input
    ensures td.TotalBufs() == 1 ==> Commute(Chunks(td))
  {
    hide SameInAnyOrder, Concat, Permutation, Chunks;
    OrderIrrelevant(Chunks(td));
    ChunksAreInput(td);
  }

  const SIXTEEN: seq<byte> := [0, 1, 2, 3, 4, 5, 6, 7, 8, 9, 10, 11, 12, 13, 14, 15]

  /** A test with an input of 16 bytes in two buffers. */
  const TWO_BUFS := TestData(SIXTEEN, 8, 2, 1, 1, CompressDecompress, false)

  /** Swapped, they do not give the input. */
  lemma SwappedDiffers()
    ensures TWO_BUFS.Valid() && TWO_BUFS.TotalBufs() == 2 && Permutation([1, 0], 2)
    ensures Concat(Pick(Chunks(TWO_BUFS), [1, 0])) != SIXTEEN
  {
    TwoChunks();
    var parts := Chunks(TWO_BUFS);
    hide Chunks, Chunk;
    assert Pick(parts, [1, 0]) == [parts[1], parts[0]];
    ConcatTwo(parts[1], parts[0]);
    assert (parts[1] + parts[0])[0] == 8;
    assert Range(0, 2) == [0, 1];
  }

  lemma TwoChunks()
    ensures TWO_BUFS.Valid() && Chunks(TWO_BUFS) == [SIXTEEN[0..8], SIXTEEN[8..16]]
  {
  }

  lemma ConcatTwo<T>(a: seq<T>, b: seq<T>)
    ensures Concat([a, b]) == a + b
  {
    ConcatAppend([a], b);
    ConcatAppend([], a);
    assert [] + [a] == [a] && [a] + [b] == [a, b];
  }

  /**
   * The test fails on every healthy device that compresses the two buffers into their chains and
   * returns them swapped when decompressing.
   */
  method OrderMatters(dev: CompDevice) returns (ret: Option<int>)
    requires dev.Lossless() && dev.inflight == [] && dev.healthy && AllChunksFit(TWO_BUFS, dev)
    modifies dev
    ensures |dev.returned| == |old(dev.returned)| + 4
    ensures ret == if dev.returned[|dev.returned| - 2..] == [1, 0] then Some(1) else Some(0)
    ensures dev.swift && dev.NewestFirst() ==> ret == Some(1)
  {
    hide AllChunksFit, Concat, Chunks, Commute, Grown, ServedOnce;
    var comp, decomp; ghost var first, order;
    SwappedDiffers();
    ret, comp, decomp, first, order := VerifyTest(TWO_BUFS, dev);
    TwoOrders(dev.fifo, first);
    TwoOrders(dev.fifo, order);
    InOrderSame();
    assert dev.returned[|dev.returned| - 2..] == order;
  }

  /** A way to compress that needs one byte more. */
  function Deflate1(x: seq<byte>): (y: seq<byte>)
  {
    [0] + x
  }

  function NeverRefuses(b: nat, x: seq<byte>): (yes: bool)
  {
    false
  }

  function Inflate1(y: seq<byte>): (x: Option<seq<byte>>)
  {
    if y == [] then None else Some(y[1..])
  }

  /** A device on which the test fails, though every op succeeds and the chunks are right. */
  method OrderSpoils() returns (ret: Option<int>, comp: LoopExit, decomp: LoopExit)
    ensures comp == decomp == Completed && ret == Some(1)
  {
    hide AllChunksFit, Concat, Chunks, Commute, Grown, ServedOnce, ChunksExplain;
    forall x ensures Inflate1(Deflate1(x)) == Some(x) {
      assert Deflate1(x)[1..] == x;
    }
    var dev := new CompDevice(false, true, true, true, 0, Inflate1, Deflate1, NeverRefuses);
    ghost var first, order;
    SwappedDiffers();
    BothFit(dev);
    ret, comp, decomp, first, order := VerifyTest(TWO_BUFS, dev);
    assert order == [1, 0];
  }

  lemma BothFit(dev: CompDevice)
    requires dev.deflate == Deflate1 && dev.refuses == NeverRefuses
    ensures TWO_BUFS.Valid() && AllChunksFit(TWO_BUFS, dev)
  {
  }

  /** Two buffers have two orders. */
  lemma TwoOrders(fifo: bool, order: seq<nat>)
    requires ServedOnce(fifo, order, 2)
    ensures order == [0, 1] || order == [1, 0]
  {
    PermutationIsDistinct(order, 2);
  }

  lemma InOrderSame()
    ensures TWO_BUFS.Valid() && TWO_BUFS.TotalBufs() == 2
    ensures Concat(Pick(Chunks(TWO_BUFS), [0, 1])) == SIXTEEN
  {
    hide Concat;
    ChunksAreInput(TWO_BUFS);
    assert Pick(Chunks(TWO_BUFS), [0, 1]) == Chunks(TWO_BUFS);
  }

  /** Decompression of every chain gives the chunks, as many bytes as they have in any order. */
  lemma ChunksBack(inflate: seq<byte> -> Option<seq<byte>>, comp: seq<Chain>, decomp: seq<Chain>,
                   chunks: seq<seq<byte>>, order: seq<nat>)
    requires StandFor(inflate, comp, chunks) && |comp| == |decomp| == |order| && Distinct(order, |chunks|)
    requires forall b :: 0 <= b < |comp| ==> Finished(Decompress, inflate, comp[b], decomp[b])
    ensures AllReadable(decomp) && Payloads(decomp) == chunks
    ensures |Concat(Pick(chunks, order))| == |Concat(chunks)|
  {
    hide Finished, Payload, Concat, Distinct;
    forall b | 0 <= b < |comp| ensures Readable(decomp[b]) && Payload(decomp[b]) == chunks[b] {
      ChunkBack(inflate, comp[b], decomp[b], chunks[b]);
    }
    assert Payloads(decomp) == chunks;
    PermutedLength(chunks, order);
  }

  lemma ChunkBack(inflate: seq<byte> -> Option<seq<byte>>, input: Chain, output: Chain, chunk: seq<byte>)
    requires Finished(Decompress, inflate, input, output) && inflate(Payload(input)) == Some(chunk)
    ensures Readable(output) && Payload(output) == chunk
  {
  }

  /** A permuted concatenation is as long as the original one. */
  lemma PermutedLength<T>(parts: seq<seq<T>>, order: seq<nat>)
    requires Distinct(order, |parts|) && |order| == |parts|
    ensures |Concat(Pick(parts, order))| == |Concat(parts)|
  {
    hide Concat, Sum;
    ConcatLength(parts, Lengths(parts));
    ConcatLength(Pick(parts, order), Pick(Lengths(parts), order));
    DistinctSum(Lengths(parts), order);
  }

  /** Outputs that fit their chains are bounded by the chains' sizes. */
  lemma BoundedByCapacity(xform: Xform, inflate: seq<byte> -> Option<seq<byte>>, src: seq<Chain>,
                          counts: seq<nat>, outSegSz: nat)
    requires AllReadable(src) && |counts| == |src|
    ensures Bounded(Scaled(counts, outSegSz), xform, inflate, src, counts, outSegSz)
  {
  }

  /** Decompression can only give the content. */
  lemma BoundedByContent(dev: CompDevice, src: seq<Chain>, parts: seq<seq<byte>>, counts: seq<nat>, outSegSz: nat)
    requires AllReadable(src) && |counts| == |src| == |parts|
    requires forall b :: 0 <= b < |src| ==> dev.inflate(Payload(src[b])) == Some(parts[b])
    requires forall b :: 0 <= b < |src| ==> |parts[b]| <= counts[b] * outSegSz
    ensures Bounded(Lengths(parts), Decompress, dev.inflate, src, counts, outSegSz)
    ensures AlwaysFits(dev, Decompress, src, counts, outSegSz)
  {
  }
}
