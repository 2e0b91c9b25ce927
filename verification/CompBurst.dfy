/**
 * The burst loop that the verify, throughput and cyclecount tests of test-compress-perf
 * share: operations are staged in `ops`, pushed to the device in bursts of which any part
 * may be accepted, taken back through `deq_ops` and returned to the pool.
 */
module CompBurst {
  import opened Util
  import opened Mempools
  import opened Mbufs
  import opened Traffic
  import opened CompDevices

  /** The operation is set up for buffer `b`. */
  ghost predicate IsFor(op: CompOp, b: nat, src: seq<Chain>, xform: Xform)
  {
    && b < |src| && op.src == b && op.dst == b && op.chksum == b
    && op.srcLength == src[b].pktLen && op.xform == xform
  }

  /** Consecutive entries of the staging array are set up for consecutive buffers. */
  ghost predicate StagedFrom(ids: seq<Obj>, mem: seq<CompOp>, start: nat, src: seq<Chain>, xform: Xform)
  {
    forall k :: 0 <= k < |ids| ==> ids[k] < |mem| && IsFor(mem[ids[k]], start + k, src, xform)
  }

  /** The requests in the device still agree with the operations they were made from. */
  ghost predicate FlightAgrees(flight: seq<Request>, mem: seq<CompOp>, src: seq<Chain>, xform: Xform)
  {
    forall k :: 0 <= k < |flight| ==>
      && flight[k].op < |mem| && flight[k] == ToRequest(flight[k].op, mem[flight[k].op])
      && IsFor(mem[flight[k].op], flight[k].dst, src, xform)
  }

  /** Every object of the pool is in exactly one place. */
  ghost predicate Accounted(objects: multiset<Obj>, free: seq<Obj>, staged: seq<Obj>,
                            flight: seq<Request>, held: seq<Obj>)
  {
    multiset(free) + multiset(staged) + multiset(Ops(flight)) + multiset(held) == objects
  }

  /** Objects in different places differ, and none is in one place twice. */
  lemma Separate(size: nat, free: seq<Obj>, staged: seq<Obj>, flight: seq<Request>, held: seq<Obj>)
    requires Accounted(multiset(Range(0, size)), free, staged, flight, held)
    ensures NoDup(staged) && NoDup(Ops(flight)) && NoDup(held)
    ensures forall o :: o in staged ==> o < size && o !in Ops(flight) && o !in held
    ensures forall o :: o in Ops(flight) ==> o < size && o !in held
    ensures forall o :: o in held ==> o < size
    ensures |free| + |staged| + |flight| + |held| == size
  {
    var all := Range(0, size);
    var parts := free + staged + Ops(flight) + held;
    assert multiset(parts) == multiset(all);
    SameSize(parts, all);
    SubNoDup(staged, all);
    SubNoDup(Ops(flight), all);
    SubNoDup(held, all);
    NoDupCounts(all);
    forall o | o in staged ensures o !in Ops(flight) && o !in held {
      assert multiset(staged)[o] >= 1;
      assert multiset(all)[o] <= 1;
    }
    forall o | o in Ops(flight) ensures o !in held {
      assert multiset(Ops(flight))[o] >= 1;
      assert multiset(all)[o] <= 1;
    }
  }

  /** Out of the buffers handed over so far, those not yet returned are still in the device. */
  ghost predicate Progress(fifo: bool, done: seq<nat>, flight: seq<Request>, totalEnq: nat)
  {
    && multiset(done) + multiset(Dsts(flight)) == multiset(Range(0, totalEnq))
    && (fifo ==> done + Dsts(flight) == Range(0, totalEnq))
  }

  lemma ProgressFacts(fifo: bool, done: seq<nat>, flight: seq<Request>, totalEnq: nat)
    requires Progress(fifo, done, flight, totalEnq)
    ensures NoDup(Dsts(flight)) && NoDup(done)
    ensures forall b :: b in Dsts(flight) ==> b < totalEnq && b !in done
    ensures forall b :: b in done ==> b < totalEnq
    ensures |done| + |flight| == totalEnq
  {
    var all := Range(0, totalEnq);
    assert multiset(done + Dsts(flight)) == multiset(all);
    SameSize(done + Dsts(flight), all);
    SubNoDup(Dsts(flight), all);
    SubNoDup(done, all);
    NoDupCounts(all);
    forall b | b in Dsts(flight) ensures b !in done {
      assert multiset(Dsts(flight))[b] >= 1;
      assert multiset(all)[b] <= 1;
    }
  }

  /** An accepted burst continues the count. */
  lemma ProgressEnqueue(fifo: bool, done: seq<nat>, flight: seq<Request>, totalEnq: nat, more: seq<Request>)
    requires Progress(fifo, done, flight, totalEnq)
    requires Dsts(more) == Range(totalEnq, totalEnq + |more|)
    ensures Progress(fifo, done, flight + more, totalEnq + |more|)
  {
    OpsDstsConcat(flight, more);
    RangeAppend(0, totalEnq, totalEnq + |more|);
    assert done + Dsts(flight + more) == (done + Dsts(flight)) + Dsts(more);
    assert multiset(Range(0, totalEnq + |more|)) == multiset(Range(0, totalEnq)) + multiset(Dsts(more));
  }

  lemma TakenFromFlight(got: seq<Request>, rest: seq<Request>, flight: seq<Request>)
    requires multiset(got) + multiset(rest) == multiset(flight)
    ensures forall k :: 0 <= k < |got| ==> got[k] in flight
    ensures forall k :: 0 <= k < |rest| ==> rest[k] in flight
    ensures |got| + |rest| == |flight|
  {
    SameSize(got + rest, flight);
    forall k | 0 <= k < |got| ensures got[k] in flight {
      assert got[k] in multiset(got);
      assert got[k] in multiset(flight);
    }
    forall k | 0 <= k < |rest| ensures rest[k] in flight {
      assert rest[k] in multiset(rest);
      assert rest[k] in multiset(flight);
    }
  }

  /** A returned burst moves from the device to what is done. */
  lemma ProgressDequeue(fifo: bool, done: seq<nat>, flight: seq<Request>, totalEnq: nat,
                        got: seq<Request>, rest: seq<Request>)
    requires Progress(fifo, done, flight, totalEnq)
    requires multiset(got) + multiset(rest) == multiset(flight)
    requires fifo ==> got + rest == flight
    ensures Progress(fifo, done + Dsts(got), rest, totalEnq)
    ensures multiset(Ops(got)) + multiset(Ops(rest)) == multiset(Ops(flight))
  {
    assert multiset(got + rest) == multiset(flight);
    SamePermutation(got + rest, flight);
    OpsDstsConcat(got, rest);
    assert fifo ==> done + Dsts(got) + Dsts(rest) == done + Dsts(flight);
  }

  /** Every chain has segments of `segSz` bytes. */
  ghost predicate WellSized(bufs: seq<Chain>, segSz: nat)
  {
    forall b :: 0 <= b < |bufs| ==> bufs[b].segs != [] && Uniform(bufs[b].segs, segSz)
  }

  /** A chain as the op set-up leaves it. */
  ghost predicate IsReset(c: Chain, outSegSz: nat)
  {
    Full(c.segs) && c.pktLen == outSegSz * |c.segs|
  }

  lemma ResetFacts(c: Chain, roomSz: nat, outSegSz: nat)
    requires Uniform(c.segs, roomSz) && IsReset(c, outSegSz) && outSegSz <= roomSz
    ensures Valid(c.segs) && DataLen(c.segs) == |c.segs| * roomSz
    ensures c.pktLen == |c.segs| * outSegSz <= DataLen(c.segs)
  {
    FullDataLen(c.segs, roomSz);
    MulLe(outSegSz, roomSz, |c.segs|);
  }

  /** A chain cut to `data`: of that length, and holding it if the cut is aligned. */
  ghost predicate IsCut(c: Chain, data: seq<byte>, roomSz: nat, outSegSz: nat)
  {
    Readable(c) && c.pktLen == |data| && (Aligned(|data|, roomSz, outSegSz) ==> Payload(c) == data)
  }

  /** The relation between what an operation read and what it wrote. */
  ghost predicate Converted(xform: Xform, inflate: seq<byte> -> Option<seq<byte>>, x: seq<byte>, out: seq<byte>)
  {
    if xform == Compress then inflate(out) == Some(x) else inflate(x) == Some(out)
  }

  /** How the op of buffer `b` ends, with segments that take `segSz` bytes each. */
  ghost function Outcome(dev: CompDevice, xform: Xform, src: seq<Chain>, counts: seq<nat>, segSz: nat, b: nat)
    : (s: Status)
    requires b < |src| && Readable(src[b]) && b < |counts|
  {
    dev.StatusOf(xform, b, Payload(src[b]), counts[b] * segSz)
  }

  /** What stays fixed while a burst loop runs. */
  datatype Setup = Setup(size: nat, src: seq<Chain>, xform: Xform, roomSz: nat, outSegSz: nat, fifo: bool,
                         history: seq<nat>, back: seq<nat>, counts: seq<nat>)

  /** Where the ops are and what is set up, between two calls. */
  datatype Flow = Flow(free: seq<Obj>, staged: seq<Obj>, flight: seq<Request>, held: seq<Obj>,
                       mem: seq<CompOp>, dst: seq<Chain>, totalEnq: nat, done: seq<nat>, accepted: seq<nat>,
                       returned: seq<nat>)

  /** The invariant of the burst loops, on values. */
  ghost predicate Good(c: Setup, f: Flow)
  {
    && |f.mem| == c.size && |f.dst| == |c.src|
    && Accounted(multiset(Range(0, c.size)), f.free, f.staged, f.flight, f.held)
    && StagedFrom(f.staged, f.mem, f.totalEnq, c.src, c.xform)
    && FlightAgrees(f.flight, f.mem, c.src, c.xform)
    && Progress(c.fifo, f.done, f.flight, f.totalEnq)
    && f.accepted == c.history + Range(0, f.totalEnq) && f.returned == c.back + f.done
    && WellSized(f.dst, c.roomSz) && SegCounts(f.dst) == c.counts
    && f.totalEnq + |f.staged| <= |f.dst|
    && ResetFrom(f.dst, f.totalEnq + |f.staged|, f.done, c.outSegSz)
  }

  /** Consequences of the invariant that the calls need. */
  lemma GoodFacts(c: Setup, f: Flow)
    requires Good(c, f)
    ensures |f.mem| == c.size && |f.dst| == |c.src|
    ensures f.totalEnq + |f.staged| <= |f.dst|
    ensures |f.free| + |f.staged| + |f.flight| + |f.held| == c.size
    ensures forall k :: 0 <= k < |f.staged| ==> f.staged[k] < |f.mem|
    ensures forall k :: 0 <= k < |f.free| ==> f.free[k] < |f.mem|
  {
    Separate(c.size, f.free, f.staged, f.flight, f.held);
    forall k | 0 <= k < |f.free| ensures f.free[k] < c.size {
      assert f.free[k] in multiset(f.free);
      assert f.free[k] in multiset(Range(0, c.size));
    }
  }

  /** Moving objects from the pool to the staging array changes only where they are counted. */
  lemma AllocateKeeps(c: Setup, f: Flow, f': Flow)
    requires Good(c, f) && f' == f.(free := f'.free) && multiset(f'.free) == multiset(f.free)
    ensures Good(c, f')
  {
  }

  /** The chains of all ops that are staged or in the device. */
  ghost predicate ResetFrom(dst: seq<Chain>, n: nat, done: seq<nat>, outSegSz: nat)
    requires n <= |dst|
  {
    forall b :: 0 <= b < n && b !in done ==> IsReset(dst[b], outSegSz)
  }

  lemma GoodAtStart(c: Setup, f: Flow)
    requires |f.mem| == c.size && |f.dst| == |c.src| && multiset(f.free) == multiset(Range(0, c.size))
    requires f.staged == f.held == [] && f.flight == [] && f.totalEnq == 0 && f.done == []
    requires f.accepted == c.history && f.returned == c.back
    requires WellSized(f.dst, c.roomSz) && SegCounts(f.dst) == c.counts
    ensures Good(c, f)
  {
    assert Ops(f.flight) == [] && Dsts(f.flight) == [] && Range(0, 0) == [];
  }

  /** `o` has come from the pool and is set up for the next buffer. */
  ghost function WithNext(c: Setup, f: Flow, o: Obj): (f': Flow)
    requires o < |f.mem| && f.totalEnq + |f.staged| < |f.dst| && |f.dst| == |c.src|
  {
    var b := f.totalEnq + |f.staged|;
    f.(staged := f.staged + [o], mem := f.mem[o := NextOp(c, b)], dst := f.dst[b := ResetOf(f.dst[b], c.outSegSz)])
  }

  ghost function NextOp(c: Setup, b: nat): (op: CompOp)
    requires b < |c.src|
  {
    CompOp(b, b, c.src[b].pktLen, b, c.xform, NotProcessed, 0)
  }

  ghost function ResetOf(c: Chain, outSegSz: nat): (r: Chain)
  {
    Chain(outSegSz * |c.segs|, ResetSegs(c.segs))
  }

  lemma SetUpKeeps(c: Setup, f: Flow, o: Obj, rest: seq<Obj>)
    requires Good(c, f) && f.free == [o] + rest && f.totalEnq + |f.staged| < |f.dst|
    ensures o < |f.mem| && Good(c, WithNext(c, f, o).(free := rest))
  {
    hide StagedFrom, FlightAgrees, Accounted, Progress, WellSized, ResetFrom, SegCounts, ResetSegs;
    Elsewhere(c.size, f, o, rest);
    var b := f.totalEnq + |f.staged|;
    StagedGrows(f.staged, f.mem, f.totalEnq, c.src, c.xform, o, NextOp(c, b));
    FlightKeeps(f.flight, f.mem, c.src, c.xform, o, NextOp(c, b));
    StagedAccounted(multiset(Range(0, c.size)), f, o, rest);
    ResetKeeps(f.dst, b, f.done, c.roomSz, c.outSegSz);
  }

  lemma StagedAccounted(objects: multiset<Obj>, f: Flow, o: Obj, rest: seq<Obj>)
    requires Accounted(objects, f.free, f.staged, f.flight, f.held) && f.free == [o] + rest
    ensures Accounted(objects, rest, f.staged + [o], f.flight, f.held)
  {
    assert multiset(f.free) == multiset(rest) + multiset{o};
    assert multiset(f.staged + [o]) == multiset(f.staged) + multiset{o};
  }

  /** Resetting the next chain keeps sizes and the chains reset before. */
  lemma ResetKeeps(dst: seq<Chain>, b: nat, done: seq<nat>, roomSz: nat, outSegSz: nat)
    requires b < |dst| && WellSized(dst, roomSz) && ResetFrom(dst, b, done, outSegSz)
    ensures var dst' := dst[b := ResetOf(dst[b], outSegSz)];
            && WellSized(dst', roomSz) && ResetFrom(dst', b + 1, done, outSegSz)
            && SegCounts(dst') == SegCounts(dst)
  {
  }

  lemma StagedGrows(staged: seq<Obj>, mem: seq<CompOp>, start: nat, src: seq<Chain>, xform: Xform,
                    o: Obj, op: CompOp)
    requires StagedFrom(staged, mem, start, src, xform) && o < |mem| && o !in staged
    requires IsFor(op, start + |staged|, src, xform)
    ensures StagedFrom(staged + [o], mem[o := op], start, src, xform)
  {
  }

  lemma FlightKeeps(flight: seq<Request>, mem: seq<CompOp>, src: seq<Chain>, xform: Xform, o: Obj, op: CompOp)
    requires FlightAgrees(flight, mem, src, xform) && o < |mem| && o !in Ops(flight)
    ensures FlightAgrees(flight, mem[o := op], src, xform)
  {
    forall k | 0 <= k < |flight| ensures flight[k].op != o {
      assert Ops(flight)[k] == flight[k].op;
    }
  }

  /** An object in the pool is neither staged nor in the device. */
  lemma Elsewhere(size: nat, f: Flow, o: Obj, rest: seq<Obj>)
    requires Accounted(multiset(Range(0, size)), f.free, f.staged, f.flight, f.held)
    requires f.free == [o] + rest
    ensures o < size && o !in f.staged && o !in Ops(f.flight) && o !in f.held
  {
    var all: seq<Obj> := Range(0, size);
    NoDupCount(all, o);
    assert multiset(f.free) == multiset{o} + multiset(rest);
    assert o in multiset(all);
    assert multiset(f.staged)[o] + multiset(Ops(f.flight))[o] + multiset(f.held)[o] == 0;
    assert o !in multiset(f.staged) && o !in multiset(Ops(f.flight)) && o !in multiset(f.held);
  }

  /** The first `k` staged ops are taken by the device. */
  ghost function Accepted(f: Flow, k: nat): (f': Flow)
    requires k <= |f.staged| && forall i :: 0 <= i < |f.staged| ==> f.staged[i] < |f.mem|
  {
    var more := Requests(f.staged[..k], f.mem);
    f.(staged := f.staged[k..], flight := f.flight + more, totalEnq := f.totalEnq + k,
       accepted := f.accepted + Dsts(more))
  }

  lemma AcceptKeeps(c: Setup, f: Flow, k: nat)
    requires Good(c, f) && k <= |f.staged|
    ensures forall i :: 0 <= i < |f.staged| ==> f.staged[i] < |f.mem|
    ensures Good(c, Accepted(f, k))
  {
    hide StagedFrom, FlightAgrees, Accounted, Progress, WellSized, ResetFrom, SegCounts;
    GoodFacts(c, f);
    var more := Requests(f.staged[..k], f.mem);
    BurstAccepted(f.staged, k, f.mem, f.totalEnq, c.src, c.xform);
    ProgressEnqueue(c.fifo, f.done, f.flight, f.totalEnq, more);
    AcceptAccounted(multiset(Range(0, c.size)), f, k);
    FlightGrows(f.flight, more, f.mem, c.src, c.xform);
    HistoryGrows(c.history, f.accepted, f.totalEnq, k, more);
    assert f.totalEnq + k + |f.staged[k..]| == f.totalEnq + |f.staged|;
  }

  /** The accepted ops line up behind those in the device. */
  lemma NextInFlight(c: Setup, f: Flow, k: nat)
    requires Good(c, f) && k <= |f.staged|
    ensures forall i :: 0 <= i < |f.staged| ==> f.staged[i] < |f.mem|
    ensures Dsts(Accepted(f, k).flight) == Dsts(f.flight) + Range(f.totalEnq, f.totalEnq + k)
  {
    hide StagedFrom, FlightAgrees, Accounted, Progress, WellSized, ResetFrom, SegCounts;
    GoodFacts(c, f);
    BurstAccepted(f.staged, k, f.mem, f.totalEnq, c.src, c.xform);
    OpsDstsConcat(f.flight, Requests(f.staged[..k], f.mem));
  }

  lemma HistoryGrows(history: seq<nat>, accepted: seq<nat>, totalEnq: nat, k: nat, more: seq<Request>)
    requires accepted == history + Range(0, totalEnq) && Dsts(more) == Range(totalEnq, totalEnq + k)
    ensures accepted + Dsts(more) == history + Range(0, totalEnq + k)
  {
    RangeAppend(0, totalEnq, totalEnq + k);
    assert accepted + Dsts(more) == history + (Range(0, totalEnq) + Dsts(more));
  }

  lemma BurstAccepted(staged: seq<Obj>, k: nat, mem: seq<CompOp>, start: nat, src: seq<Chain>, xform: Xform)
    requires StagedFrom(staged, mem, start, src, xform) && k <= |staged|
    requires forall i :: 0 <= i < k ==> staged[..k][i] < |mem|
    ensures Dsts(Requests(staged[..k], mem)) == Range(start, start + k)
    ensures FlightAgrees(Requests(staged[..k], mem), mem, src, xform)
    ensures StagedFrom(staged[k..], mem, start + k, src, xform)
  {
  }

  lemma AcceptAccounted(objects: multiset<Obj>, f: Flow, k: nat)
    requires Accounted(objects, f.free, f.staged, f.flight, f.held) && k <= |f.staged|
    requires forall i :: 0 <= i < |f.staged| ==> f.staged[i] < |f.mem|
    ensures Accounted(objects, f.free, f.staged[k..], Accepted(f, k).flight, f.held)
  {
    var more := Requests(f.staged[..k], f.mem);
    assert Ops(more) == f.staged[..k];
    OpsDstsConcat(f.flight, more);
    assert f.staged == f.staged[..k] + f.staged[k..];
    assert multiset(f.staged) == multiset(f.staged[..k]) + multiset(f.staged[k..]);
    assert multiset(Ops(f.flight + more)) == multiset(Ops(f.flight)) + multiset(f.staged[..k]);
  }

  lemma FlightGrows(flight: seq<Request>, more: seq<Request>, mem: seq<CompOp>, src: seq<Chain>, xform: Xform)
    requires FlightAgrees(flight, mem, src, xform) && FlightAgrees(more, mem, src, xform)
    ensures FlightAgrees(flight + more, mem, src, xform)
  {
  }

  /** A burst `got` comes back; its ops wait in `deq_ops` and their chains have been written. */
  ghost predicate Returned(f: Flow, f': Flow, got: seq<Request>)
  {
    && f'.free == f.free && f'.staged == f.staged && f'.totalEnq == f.totalEnq && f'.accepted == f.accepted
    && multiset(got) + multiset(f'.flight) == multiset(f.flight)
    && f'.held == Ops(got) && f'.done == f.done + Dsts(got) && f'.returned == f.returned + Dsts(got)
    && |f'.mem| == |f.mem| && |f'.dst| == |f.dst|
    && (forall o :: 0 <= o < |f.mem| && o !in Ops(got) ==> f'.mem[o] == f.mem[o])
    && (forall b :: 0 <= b < |f.dst| && b !in Dsts(got) ==> f'.dst[b] == f.dst[b])
    && (forall b :: 0 <= b < |f.dst| ==> SameShape(f.dst[b].segs, f'.dst[b].segs))
  }

  lemma ReturnKeeps(c: Setup, f: Flow, f': Flow, got: seq<Request>)
    requires Good(c, f) && f.held == [] && Returned(f, f', got)
    requires c.fifo ==> got + f'.flight == f.flight
    ensures Good(c, f')
  {
    hide StagedFrom, FlightAgrees, Progress, WellSized, ResetFrom, SegCounts, SameShape, Accounted, NoDup;
    ProgressDequeue(c.fifo, f.done, f.flight, f.totalEnq, got, f'.flight);
    TakenFromFlight(got, f'.flight, f.flight);
    AccountedKept(multiset(Range(0, c.size)), f, f', got);
    Separate(c.size, f'.free, f'.staged, f'.flight, f'.held);
    ConcatAssociates(c.back, f.done, Dsts(got));
    StagedKept(c, f, f', got);
    FlightKept(c, f, f', got);
    ChainsKept(c, f, f', got);
  }

  lemma AccountedKept(objects: multiset<Obj>, f: Flow, f': Flow, got: seq<Request>)
    requires Accounted(objects, f.free, f.staged, f.flight, f.held) && f.held == []
    requires f'.free == f.free && f'.staged == f.staged && f'.held == Ops(got)
    requires multiset(Ops(got)) + multiset(Ops(f'.flight)) == multiset(Ops(f.flight))
    ensures Accounted(objects, f'.free, f'.staged, f'.flight, f'.held)
  {
    var kept := multiset(f.free) + multiset(f.staged);
    assert kept + multiset(Ops(f'.flight)) + multiset(Ops(got)) == kept + multiset(Ops(f.flight));
  }

  lemma StagedKept(c: Setup, f: Flow, f': Flow, got: seq<Request>)
    requires StagedFrom(f.staged, f.mem, f.totalEnq, c.src, c.xform) && Returned(f, f', got)
    requires forall o :: o in f'.staged ==> o !in f'.held
    ensures StagedFrom(f'.staged, f'.mem, f'.totalEnq, c.src, c.xform)
  {
    forall k | 0 <= k < |f'.staged| ensures f'.mem[f'.staged[k]] == f.mem[f.staged[k]] {
      assert f'.staged[k] in f'.staged;
    }
  }

  lemma FlightKept(c: Setup, f: Flow, f': Flow, got: seq<Request>)
    requires FlightAgrees(f.flight, f.mem, c.src, c.xform) && Returned(f, f', got)
    requires forall k :: 0 <= k < |f'.flight| ==> f'.flight[k] in f.flight
    requires forall o :: o in Ops(f'.flight) ==> o !in f'.held
    ensures FlightAgrees(f'.flight, f'.mem, c.src, c.xform)
  {
    forall k | 0 <= k < |f'.flight|
      ensures f'.flight[k].op < |f'.mem| && f'.flight[k] == ToRequest(f'.flight[k].op, f'.mem[f'.flight[k].op])
      ensures IsFor(f'.mem[f'.flight[k].op], f'.flight[k].dst, c.src, c.xform)
    {
      assert f'.flight[k] in f.flight;
      assert Ops(f'.flight)[k] == f'.flight[k].op;
    }
  }

  /** The output chains keep their sizes, and those of other ops their lengths. */
  lemma ChainsKept(c: Setup, f: Flow, f': Flow, got: seq<Request>)
    requires Returned(f, f', got) && WellSized(f.dst, c.roomSz)
    requires f.totalEnq + |f.staged| <= |f.dst| && ResetFrom(f.dst, f.totalEnq + |f.staged|, f.done, c.outSegSz)
    ensures WellSized(f'.dst, c.roomSz) && SegCounts(f'.dst) == SegCounts(f.dst)
    ensures ResetFrom(f'.dst, f.totalEnq + |f.staged|, f'.done, c.outSegSz)
  {
    forall b | 0 <= b < f.totalEnq + |f.staged| && b !in f'.done ensures IsReset(f'.dst[b], c.outSegSz) {
      assert b !in f.done && b !in Dsts(got);
    }
    forall b | 0 <= b < |f'.dst| ensures f'.dst[b].segs != [] && Uniform(f'.dst[b].segs, c.roomSz)
      ensures |f'.dst[b].segs| == |f.dst[b].segs|
    {
      assert SameShape(f.dst[b].segs, f'.dst[b].segs);
    }
    assert SegCounts(f'.dst) == SegCounts(f.dst);
  }

  /** The waiting ops go back to the pool. */
  lemma ReleaseKeeps(c: Setup, f: Flow)
    requires Good(c, f)
    ensures Good(c, f.(free := f.free + f.held, held := []))
  {
  }

  /** The buffers of the waiting ops are those returned last. */
  lemma HeldDone(c: Setup, f: Flow, i: nat)
    requires Good(c, f) && i < |f.done|
    ensures f.done[i] < f.totalEnq <= |f.dst| && NoDup(f.done)
    ensures f.dst[f.done[i]].segs != [] && Uniform(f.dst[f.done[i]].segs, c.roomSz)
    ensures |f.dst[f.done[i]].segs| == c.counts[f.done[i]] && |c.counts| == |f.dst|
  {
    ProgressFacts(c.fifo, f.done, f.flight, f.totalEnq);
    assert f.done[i] in f.done;
    assert SegCounts(f.dst)[f.done[i]] == |f.dst[f.done[i]].segs|;
  }

  /** Rewriting the lengths in the chain of a returned op. */
  lemma TrimKeeps(c: Setup, f: Flow, b: nat, chain: Chain)
    requires Good(c, f) && b in f.done && b < |f.dst|
    requires |chain.segs| == |f.dst[b].segs| && Uniform(chain.segs, c.roomSz)
    ensures Good(c, f.(dst := f.dst[b := chain]))
  {
    assert SegCounts(f.dst[b := chain]) == SegCounts(f.dst);
  }

  /** The ops a device may be asked to work on. */
  lemma FlightSound(c: Setup, f: Flow, k: nat)
    requires Good(c, f) && k < |f.flight|
    ensures f.flight[k].op < |f.mem| && f.flight[k].src == f.flight[k].dst < |f.dst|
    ensures f.mem[f.flight[k].op].src == f.flight[k].src == f.mem[f.flight[k].op].dst
    ensures f.flight[k].srcLength == c.src[f.flight[k].src].pktLen && f.flight[k].xform == c.xform
    ensures f.flight[k].dst !in f.done && IsReset(f.dst[f.flight[k].dst], c.outSegSz)
    ensures Uniform(f.dst[f.flight[k].dst].segs, c.roomSz)
  {
    ProgressFacts(c.fifo, f.done, f.flight, f.totalEnq);
    assert Dsts(f.flight)[k] == f.flight[k].dst;
  }

  /** The last buffers of a queue, the newest first. */
  ghost predicate BuffersTurned(got: seq<nat>, queue: seq<nat>)
  {
    |got| <= |queue| && forall i :: 0 <= i < |got| ==> got[i] == queue[|queue| - 1 - i]
  }

  lemma DstsTurned(got: seq<Request>, queue: seq<Request>)
    requires Turned(got, queue)
    ensures BuffersTurned(Dsts(got), Dsts(queue))
  {
  }

  /** Since the log of calls was `c` the device has been called for one round of bursts. */
  ghost predicate CalledOnce(dev: CompDevice, c: seq<Call>, n: nat, burst: nat, wide: bool)
    reads dev`calls
  {
    c <= dev.calls && WholeRounds(dev.calls[|c|..], n, burst, wide, 1)
  }

  class Burst {
    const pool: Mempool
    const dev: CompDevice
    /** The two parts of the one allocation: the staging area and `deq_ops` behind it. */
    const ops: array<Obj>
    const deqOps: array<Obj>
    const opMem: array<CompOp>
    const src: array<Chain>
    const dst: array<Chain>
    const xform: Xform
    /** The bytes a segment of an output chain has room for. */
    const roomSz: nat
    /** What the loop takes for that: out_seg_sz. */
    const outSegSz: nat
    const burstSz: nat
    const totalBufs: nat
    /** After an enqueue call the loop asks for all ops in use, not for a burst. */
    const wide: bool

    /** Ops taken from the pool and not yet given back. */
    var taken: nat
    var remaining: nat
    var totalEnq: nat
    var totalDeq: nat
    var unused: nat
    var numEnq: nat
    var numDeq: nat

    /** Returned ops that still wait in `deq_ops` for their release. */
    ghost var held: nat
    /** Buffers of the ops returned in this iteration, in order. */
    ghost var done: seq<nat>
    /** What the device had accepted and returned before this iteration. */
    ghost var history: seq<nat>
    ghost var back: seq<nat>
    ghost var callsBefore: seq<Call>
    /** Segments of the output chains. */
    ghost var counts: seq<nat>

    ghost predicate Shape()
    {
      && pool.size == opMem.Length == 2 * totalBufs
      && src.Length == dst.Length == totalBufs && src != dst
      && burstSz > 0 && 0 < outSegSz <= roomSz
      && Min(burstSz, totalBufs) <= ops.Length && totalBufs <= deqOps.Length && ops != deqOps
      && dev.Lossless()
    }

    /** Counters, with `staged` ops at ops[front..]. */
    ghost predicate Counts(front: nat, staged: nat)
      reads this, dev`inflight
    {
      && remaining + totalEnq == totalBufs
      && totalDeq + |dev.inflight| == totalEnq
      && taken == staged + |dev.inflight| + held
      && staged <= remaining && front + staged <= Min(burstSz, totalBufs)
      && held <= totalDeq
    }

    /** Everything the loop works on. */
    ghost function Footprint(): (r: set<object>)
    {
      {this, pool, dev, ops, deqOps, opMem, src, dst}
    }

    ghost function Config(): (c: Setup)
      reads this, src
    {
      Setup(pool.size, src[..], xform, roomSz, outSegSz, dev.fifo, history, back, counts)
    }

    ghost function Snapshot(front: nat, staged: nat): (f: Flow)
      requires front + staged <= ops.Length && held <= deqOps.Length
      reads this, dev`inflight, dev`accepted, dev`returned, pool`free, ops, deqOps, opMem, dst
    {
      Flow(pool.free, ops[front..front + staged], dev.inflight, deqOps[..held],
           opMem[..], dst[..], totalEnq, done, dev.accepted, dev.returned)
    }

    /** The invariant with `staged` ops waiting at ops[front..]. */
    ghost predicate Inv(front: nat, staged: nat)
      reads this, dev`inflight, dev`accepted, dev`returned, pool`free, ops, deqOps, opMem, src, dst
    {
      && Shape() && AllReadable(src[..])
      && Counts(front, staged)
      && Good(Config(), Snapshot(front, staged))
    }

    constructor (pool: Mempool, dev: CompDevice, ops: array<Obj>, deqOps: array<Obj>, opMem: array<CompOp>,
                 src: array<Chain>, dst: array<Chain>, xform: Xform, roomSz: nat, outSegSz: nat, burstSz: nat,
                 wide: bool)
      ensures this.pool == pool && this.dev == dev && this.ops == ops && this.deqOps == deqOps
      ensures this.opMem == opMem && this.src == src && this.dst == dst && this.xform == xform
      ensures this.roomSz == roomSz && this.outSegSz == outSegSz
      ensures this.burstSz == burstSz && this.totalBufs == dst.Length && this.wide == wide
      ensures taken == 0 && held == 0
    {
      this.pool, this.dev, this.ops, this.deqOps, this.opMem := pool, dev, ops, deqOps, opMem;
      this.src, this.dst, this.xform := src, dst, xform;
      this.roomSz, this.outSegSz, this.burstSz, this.totalBufs := roomSz, outSegSz, burstSz, dst.Length;
      this.wide := wide;
      taken, remaining, totalEnq, totalDeq, unused, numEnq, numDeq := 0, 0, 0, 0, 0, 0, 0;
      held, done, history, back, callsBefore, counts := 0, [], [], [], [], [];
    }

    /** The calls of this iteration are those of bursts, and the counters say what they have done. */
    ghost predicate Traced()
      reads this`totalEnq, this`totalDeq, this`callsBefore, dev`calls
    {
      && callsBefore <= dev.calls
      && var calls := dev.calls[|callsBefore|..];
      && InBursts(calls, totalBufs, burstSz, wide)
      && TakenIn(calls) == totalEnq && GivenIn(calls) == totalDeq
    }

    /** The last call was no enqueue call. */
    ghost predicate Quiet()
      reads this`callsBefore, dev`calls
    {
      callsBefore <= dev.calls && !AfterEnq(dev.calls[|callsBefore|..])
    }

    /** The last call was an enqueue call that left `unused` ops. */
    ghost predicate JustPushed()
      reads this`callsBefore, this`unused, dev`calls
    {
      && callsBefore < dev.calls && dev.calls[|dev.calls| - 1].Enq?
      && unused == dev.calls[|dev.calls| - 1].asked - dev.calls[|dev.calls| - 1].done
    }

    /** What the next dequeue call is to ask for. */
    ghost predicate Polls(limit: nat)
      reads this`callsBefore, this`unused, this`remaining, this`totalDeq, this`taken, dev`calls
    {
      || (JustPushed() && limit == if wide then taken % 0x1_0000 else burstSz)
      || (Quiet() && remaining == 0 && totalDeq < totalBufs && limit == burstSz)
    }

    lemma PushTraced(earlier: seq<Call>, numOps: nat, k: nat)
      requires callsBefore <= earlier && dev.calls == earlier + [Enq(numOps, k)]
      requires var calls := earlier[|callsBefore|..];
               && InBursts(calls, totalBufs, burstSz, wide) && !AfterEnq(calls)
               && TakenIn(calls) + k == totalEnq && GivenIn(calls) == totalDeq
      requires totalEnq - k < totalBufs && (totalEnq == k ==> totalDeq == 0)
      requires numOps == Min(totalBufs - (totalEnq - k), burstSz) && unused == numOps - k
      ensures Traced() && JustPushed()
    {
      var calls, call := earlier[|callsBefore|..], Enq(numOps, k);
      assert dev.calls[|callsBefore|..] == calls + [call];
      ModUnique(totalEnq - k, 0, totalEnq - k, totalBufs);
      OneCallMore(calls, call, totalBufs, burstSz, wide);
      CallMore(calls, call);
    }

    /** With these counters the next dequeue call is to ask for `limit`. */
    ghost predicate Pollable(earlier: seq<Call>, enq: nat, deq: nat, limit: nat)
      reads this`callsBefore
    {
      && callsBefore <= earlier
      && var calls := earlier[|callsBefore|..];
      && InBursts(calls, totalBufs, burstSz, wide) && TakenIn(calls) == enq && GivenIn(calls) == deq
      && if AfterEnq(calls)
         then
           var last := calls[|calls| - 1];
           limit == if wide then (enq - deq + last.asked - last.done) % 0x1_0000 else burstSz
         else enq == totalBufs && deq < totalBufs && limit == burstSz
    }

    lemma PollAllowed(limit: nat)
      requires Traced() && Polls(limit) && remaining + totalEnq == totalBufs
      requires taken == unused + totalEnq - totalDeq
      ensures Pollable(dev.calls, totalEnq, totalDeq, limit)
    {
      hide InBursts, TakenIn, GivenIn;
    }

    lemma PollTraced(earlier: seq<Call>, limit: nat, k: nat)
      requires k <= totalDeq && Pollable(earlier, totalEnq, totalDeq - k, limit)
      requires dev.calls == earlier + [Deq(limit, k)]
      ensures Traced() && Quiet()
    {
      var calls, call := earlier[|callsBefore|..], Deq(limit, k);
      assert dev.calls[|callsBefore|..] == calls + [call];
      if AfterEnq(calls) {
        assert calls[..0] == [];
      }
      ModUnique(totalBufs, 1, 0, totalBufs);
      OneCallMore(calls, call, totalBufs, burstSz, wide);
      CallMore(calls, call);
    }

    /** The counters at the head of an iteration. */
    method StartIteration()
      requires Shape() && taken == 0 && held == 0
      requires AllReadable(src[..]) && WellSized(dst[..], roomSz)
      requires multiset(pool.free) == pool.Objects() && dev.inflight == []
      modifies this
      ensures Inv(0, 0) && numEnq == unused == 0
      ensures totalEnq == totalDeq == 0 && remaining == totalBufs
      ensures taken == 0 && held == 0
      ensures done == [] && history == dev.accepted && back == dev.returned && counts == SegCounts(dst[..])
      ensures callsBefore == dev.calls && Traced() && Quiet()
    {
      hide Good, AllReadable, WellSized, CompDevice.Lossless, SegCounts;
      ResetCounters();
      NoCalls(totalBufs, burstSz, wide);
      InvAtStart();
    }

    method ResetCounters()
      modifies this
      ensures remaining == totalBufs && totalEnq == totalDeq == unused == numEnq == 0
      ensures done == [] && history == dev.accepted && back == dev.returned && counts == SegCounts(dst[..])
      ensures taken == old(taken) && held == old(held) && callsBefore == dev.calls
    {
      callsBefore := dev.calls;
      remaining, totalEnq, totalDeq, unused, numEnq, numDeq := totalBufs, 0, 0, 0, 0, 0;
      done, history, back, counts := [], dev.accepted, dev.returned, SegCounts(dst[..]);
    }

    lemma InvAtStart()
      requires Shape() && AllReadable(src[..]) && WellSized(dst[..], roomSz)
      requires multiset(pool.free) == pool.Objects() && dev.inflight == []
      requires remaining == totalBufs && taken == held == totalEnq == totalDeq == unused == numEnq == 0
      requires done == [] && history == dev.accepted && back == dev.returned && counts == SegCounts(dst[..])
      ensures Inv(0, 0)
    {
      hide Good, AllReadable, WellSized;
      assert ops[0..0] == [] && deqOps[..0] == [];
      GoodAtStart(Config(), Snapshot(0, 0));
    }

    /** Moves the ops the device did not take to the front, "to maintain order". */
    method MoveUnused()
      requires Inv(numEnq, unused)
      modifies ops
      ensures Inv(0, unused)
    {
      hide Good, AllReadable;
      ghost var before := Snapshot(numEnq, unused);
      if unused > 0 && numEnq > 0 {
        MemMove(ops, 0, numEnq, unused);
        assert ops[0..0 + unused] == ops[..unused];
      }
      assert Snapshot(0, unused).staged == before.staged;
    }

    /** The pool never runs dry: what is not free is staged or in the device. */
    lemma PoolSuffices(needed: nat)
      requires Inv(0, unused) && held == 0 && unused + needed <= remaining
      ensures needed <= |pool.free|
    {
      GoodFacts(Config(), Snapshot(0, unused));
    }

    /** The new ops of a burst come from the pool. */
    method AllocateOps(needed: nat) returns (ok: bool)
      requires Inv(0, unused) && held == 0
      requires unused + needed <= Min(burstSz, remaining)
      modifies this`taken, pool`free, ops
      ensures ok && taken == old(taken) + needed
      ensures Good(Config(), Snapshot(0, unused).(free := ops[unused..unused + needed] + pool.free))
    {
      hide Good, AllReadable;
      PoolSuffices(needed);
      ok := DrawGood(needed);
      taken := taken + needed;
    }

    method DrawGood(needed: nat) returns (ok: bool)
      requires needed <= |pool.free| && unused + needed <= ops.Length && held <= deqOps.Length && ops != deqOps
      requires Good(Config(), Snapshot(0, unused))
      modifies pool`free, ops
      ensures ok
      ensures Good(Config(), Snapshot(0, unused).(free := ops[unused..unused + needed] + pool.free))
    {
      hide Good;
      ghost var before := Snapshot(0, unused);
      ok := Draw(needed);
      assert ops[0..0 + unused] == ops[..unused] == before.staged;
      AllocateKeeps(Config(), before, before.(free := ops[unused..unused + needed] + pool.free));
    }

    method Draw(needed: nat) returns (ok: bool)
      requires needed <= |pool.free| && unused + needed <= ops.Length
      modifies pool`free, ops
      ensures ok && multiset(ops[unused..unused + needed] + pool.free) == multiset(old(pool.free))
      ensures ops[..unused] == old(ops[..unused])
    {
      ok := pool.GetBulk(ops, unused, needed);
    }

    /** The set-up loop: the new ops are attached to the next buffers, which are reset. */
    method SetUpOps(numOps: nat)
      requires Shape() && unused <= numOps <= Min(burstSz, remaining) && held == 0
      requires remaining + totalEnq == totalBufs
      requires Good(Config(), Snapshot(0, unused).(free := ops[unused..numOps] + pool.free))
      modifies opMem, dst
      ensures Good(Config(), Snapshot(0, numOps))
      ensures forall b :: 0 <= b < totalEnq + unused ==> dst[b] == old(dst[b])
    {
      hide Good, AllReadable;
      var i := unused;
      while i < numOps
        modifies opMem, dst
        invariant unused <= i <= numOps
        invariant Good(Config(), Snapshot(0, i).(free := ops[i..numOps] + pool.free))
        invariant forall b :: 0 <= b < totalEnq + unused ==> dst[b] == old(dst[b])
      {
        SetUpOne(i, numOps);
        i := i + 1;
      }
      assert ops[i..numOps] + pool.free == pool.free;
    }

    /** One op of the set-up loop. */
    method SetUpOne(i: nat, numOps: nat)
      requires Shape() && i < numOps <= ops.Length && held <= deqOps.Length
      requires totalEnq + i < totalBufs
      requires Good(Config(), Snapshot(0, i).(free := ops[i..numOps] + pool.free))
      modifies opMem, dst
      ensures Good(Config(), Snapshot(0, i + 1).(free := ops[i + 1..numOps] + pool.free))
      ensures forall b :: 0 <= b < totalBufs && b != totalEnq + i ==> dst[b] == old(dst[b])
    {
      hide Good;
      ghost var before := Snapshot(0, i).(free := ops[i..numOps] + pool.free);
      ghost var rest := ops[i + 1..numOps] + pool.free;
      assert before.free == [ops[i]] + rest;
      SetUpKeeps(Config(), before, ops[i], rest);
      var bufId := totalEnq + i;
      opMem[ops[i]] := CompOp(bufId, bufId, src[bufId].pktLen, bufId, xform, NotProcessed, 0);
      dst[bufId] := ResetChain(dst[bufId], outSegSz);
      assert Snapshot(0, i + 1).(free := rest) == WithNext(Config(), before, ops[i]).(free := rest);
    }

    /** The front half of a round: everything up to the enqueue call. */
    method Stage() returns (numOps: nat, ok: bool)
      requires Inv(numEnq, unused) && held == 0 && remaining > 0
      modifies this`taken, pool`free, ops, opMem, dst
      ensures ok && numOps == Min(remaining, burstSz) && Inv(0, numOps)
      ensures forall b :: 0 <= b < totalEnq ==> dst[b] == old(dst[b])
    {
      hide Good, AllReadable;
      numOps := Min(remaining, burstSz);
      var needed: nat := numOps - unused;
      MoveUnused();
      assert ops[unused..unused] + pool.free == pool.free;
      if needed > 0 {
        ok := AllocateOps(needed);
        if !ok {
          return;
        }
      }
      ok := true;
      SetUpOps(numOps);
    }

    /** The enqueue call. */
    method Push(numOps: nat) returns (k: nat)
      requires Inv(0, numOps) && numOps > 0
      modifies dev`inflight, dev`stalls, dev`accepted, dev`calls
      ensures k <= numOps && |dev.inflight| == |old(dev.inflight)| + k && (dev.swift ==> k == numOps)
      ensures dev.calls == old(dev.calls) + [Enq(numOps, k)]
      ensures Dsts(dev.inflight) == Dsts(old(dev.inflight)) + Range(totalEnq, totalEnq + k)
      ensures k <= |old(Snapshot(0, numOps)).staged|
      ensures Good(Config(), Snapshot(0, numOps).(staged := ops[k..numOps], totalEnq := totalEnq + k))
      ensures dev.stalls <= old(dev.stalls) && (k == 0 ==> dev.stalls < old(dev.stalls))
    {
      hide Good, AllReadable;
      ghost var before := Snapshot(0, numOps);
      GoodFacts(Config(), before);
      assert forall i :: 0 <= i < numOps ==> ops[i] == before.staged[i];
      k := dev.EnqueueBurst(ops, numOps, opMem);
      AcceptKeeps(Config(), before, k);
      NextInFlight(Config(), before, k);
      assert ops[..k] == before.staged[..k];
      assert Snapshot(0, numOps).(staged := ops[k..numOps], totalEnq := totalEnq + k) == Accepted(before, k);
    }

    /** The enqueue call and the bookkeeping after it; `ok` is false when the device counts errors. */
    method Enqueue(numOps: nat) returns (ok: bool)
      requires Inv(0, numOps) && numOps == Min(remaining, burstSz) > 0 && held == 0 && Traced() && Quiet()
      modifies this`unused, this`remaining, this`totalEnq, this`numEnq
      modifies dev`inflight, dev`stalls, dev`accepted, dev`calls
      ensures dev.healthy ==> ok
      ensures ok ==> Inv(numEnq, unused) && numEnq + unused == numOps && Traced() && JustPushed()
      ensures ok ==> totalEnq == old(totalEnq) + numEnq && remaining == old(remaining) - numEnq
      ensures ok ==> Dsts(dev.inflight) == Dsts(old(dev.inflight)) + Range(old(totalEnq), totalEnq)
      ensures dev.swift ==> numEnq == numOps
      ensures dev.stalls <= old(dev.stalls) && (ok && numEnq == 0 ==> dev.stalls < old(dev.stalls))
    {
      hide Good, AllReadable, CompDevice.Lossless, InBursts, TakenIn, GivenIn;
      numEnq := Push(numOps);
      ok := true;
      if numEnq == 0 {
        var errors := dev.ErrorCount();
        if errors > 0 {
          return false;
        }
      }
      CountAccepted(numOps);
      PushTraced(old(dev.calls), numOps, numEnq);
    }

    /** The counters after the enqueue call. */
    method CountAccepted(numOps: nat)
      requires Shape() && AllReadable(src[..]) && numEnq <= numOps <= Min(burstSz, remaining) && held <= totalDeq
      requires remaining + totalEnq == totalBufs && totalDeq + |dev.inflight| == totalEnq + numEnq
      requires taken == numOps - numEnq + |dev.inflight| + held
      requires Good(Config(), Snapshot(0, numOps).(staged := ops[numEnq..numOps], totalEnq := totalEnq + numEnq))
      modifies this`unused, this`remaining, this`totalEnq
      ensures Inv(numEnq, unused) && numEnq + unused == numOps
      ensures totalEnq == old(totalEnq) + numEnq && remaining == old(remaining) - numEnq
    {
      hide Good, AllReadable;
      unused := numOps - numEnq;
      remaining := remaining - numEnq;
      totalEnq := totalEnq + numEnq;
      assert ops[numEnq..numEnq + unused] == ops[numEnq..numOps];
    }

    /** What a returned op has done to its buffers, in the terms of the burst loop. */
    ghost predicate Delivered(op: CompOp, b: nat, input: Chain, output: Chain)
    {
      && op.dst == b
      && IsReset(output, outSegSz) && Uniform(output.segs, roomSz) && Readable(input) && Readable(output)
      && op.status == dev.StatusOf(xform, b, Payload(input), |output.segs| * roomSz)
      && (op.status == Success ==>
            && op.produced <= DataLen(output.segs)
            && Converted(xform, dev.inflate, Payload(input), Input(output, op.produced)))
    }

    /** What one call of the device has done, seen from the burst loop. */
    lemma CompletedDelivers(r: Request, input: Chain, before: Chain, after: Chain, op: CompOp)
      requires dev.Completed(r, input, before, after, op)
      requires Readable(input) && r.srcLength == input.pktLen && r.xform == xform
      requires IsReset(before, outSegSz) && Uniform(before.segs, roomSz) && outSegSz <= roomSz
      ensures Delivered(op, r.dst, input, after)
    {
      ResetFacts(before, roomSz, outSegSz);
      SameShapeDataLen(before.segs, after.segs);
      ResetFacts(after, roomSz, outSegSz);
    }

    /** The ops in `deq_ops` have served the buffers done[from..]. */
    ghost predicate BurstDelivered(c: Setup, f: Flow, from: nat)
    {
      && |f.done| == from + |f.held|
      && forall i :: 0 <= i < |f.held| ==>
           && f.held[i] < |f.mem| && f.done[from + i] < |f.dst| && f.done[from + i] < |c.src|
           && Delivered(f.mem[f.held[i]], f.done[from + i], c.src[f.done[from + i]], f.dst[f.done[from + i]])
    }

    ghost predicate SameSizes(c: Setup)
    {
      c.xform == xform && c.roomSz == roomSz && c.outSegSz == outSegSz && outSegSz <= roomSz
    }

    lemma PolledReturns(c: Setup, f: Flow, f': Flow, got: seq<Request>)
      requires Good(c, f) && f.held == [] && AllReadable(c.src) && SameSizes(c)
      requires dev.Polled(got, f.mem, f'.mem, c.src, f.dst, f'.dst)
      requires f' == f.(held := Ops(got), done := f.done + Dsts(got), returned := f.returned + Dsts(got),
                        flight := f'.flight, mem := f'.mem, dst := f'.dst)
      requires multiset(got) + multiset(f'.flight) == multiset(f.flight)
      requires c.fifo ==> got + f'.flight == f.flight
      ensures Good(c, f') && BurstDelivered(c, f', |f.done|)
      ensures |got| + |f'.flight| == |f.flight|
      ensures |f'.dst| == |f.dst| && forall b :: 0 <= b < |f.dst| && b !in Dsts(got) ==> f'.dst[b] == f.dst[b]
    {
      hide Good, AllReadable, CompDevice.Polled, Delivered;
      OthersKept(c.src, f, f', got);
      ShapesKept(f, f', c.src, got);
      ReturnKeeps(c, f, f', got);
      TakenFromFlight(got, f'.flight, f.flight);
      EachDelivered(c, f, f', got);
      assert f'.held == Ops(got) && f'.done == f.done + Dsts(got);
    }

    lemma ShapesKept(f: Flow, f': Flow, src: seq<Chain>, got: seq<Request>)
      requires dev.Polled(got, f.mem, f'.mem, src, f.dst, f'.dst)
      ensures forall b :: 0 <= b < |f.dst| ==> SameShape(f.dst[b].segs, f'.dst[b].segs)
    {
      forall b | 0 <= b < |f.dst| ensures SameShape(f.dst[b].segs, f'.dst[b].segs) {
        if b in Dsts(got) {
          var i :| 0 <= i < |got| && Dsts(got)[i] == b;
          assert dev.Completed(got[i], src[got[i].src], f.dst[b], f'.dst[b], f'.mem[got[i].op]);
        }
      }
    }

    lemma OthersKept(src: seq<Chain>, f: Flow, f': Flow, got: seq<Request>)
      requires dev.Polled(got, f.mem, f'.mem, src, f.dst, f'.dst)
      ensures |f'.mem| == |f.mem| && |f'.dst| == |f.dst|
      ensures forall o :: 0 <= o < |f.mem| && o !in Ops(got) ==> f'.mem[o] == f.mem[o]
      ensures forall b :: 0 <= b < |f.dst| && b !in Dsts(got) ==> f'.dst[b] == f.dst[b]
    {
    }

    lemma EachDelivered(c: Setup, f: Flow, f': Flow, got: seq<Request>)
      requires Good(c, f) && AllReadable(c.src) && SameSizes(c)
      requires dev.Polled(got, f.mem, f'.mem, c.src, f.dst, f'.dst)
      requires forall k :: 0 <= k < |got| ==> got[k] in f.flight
      ensures forall i :: 0 <= i < |got| ==>
        && got[i].op < |f'.mem| && got[i].dst < |f'.dst| && got[i].dst < |c.src|
        && Delivered(f'.mem[got[i].op], got[i].dst, c.src[got[i].dst], f'.dst[got[i].dst])
    {
      hide Good, AllReadable;
      GoodFacts(c, f);
      forall i | 0 <= i < |got|
        ensures got[i].op < |f'.mem| && got[i].dst < |f'.dst| && got[i].dst < |c.src|
        ensures Delivered(f'.mem[got[i].op], got[i].dst, c.src[got[i].dst], f'.dst[got[i].dst])
      {
        var j :| 0 <= j < |f.flight| && f.flight[j] == got[i];
        FlightSound(c, f, j);
        CompletedDelivers(got[i], c.src[got[i].src], f.dst[got[i].dst], f'.dst[got[i].dst], f'.mem[got[i].op]);
      }
    }

    /** The dequeue call. */
    method Poll(limit: nat) returns (k: nat, ghost got: seq<Request>)
      requires Inv(numEnq, unused) && held == 0
      modifies dev`inflight, dev`stalls, dev`returned, dev`calls, deqOps, opMem, dst
      ensures k == |got| <= limit && k <= deqOps.Length && |dev.inflight| + k == |old(dev.inflight)|
      ensures dev.calls == old(dev.calls) + [Deq(limit, k)]
      ensures dev.swift ==> k == Min(limit, |old(dev.inflight)|)
      ensures dev.NewestFirst() ==> Turned(got, old(dev.inflight))
      ensures deqOps[..k] == Ops(got)
      ensures
        var f := Snapshot(numEnq, unused).(held := Ops(got), done := done + Dsts(got));
        Good(Config(), f) && BurstDelivered(Config(), f, |done|)
      ensures forall b :: 0 <= b < totalBufs && b !in Dsts(got) ==> dst[..][b] == old(dst[..])[b]
      ensures dev.stalls <= old(dev.stalls)
      ensures k == 0 && limit > 0 && old(dev.inflight) != [] ==> dev.stalls < old(dev.stalls)
    {
      hide Good, BurstDelivered, AllReadable, CompDevice.Polled;
      ghost var before := Snapshot(numEnq, unused);
      DeviceReady();
      k, got := dev.DequeueBurst(deqOps, limit, opMem, src, dst);
      ghost var after := Snapshot(numEnq, unused).(held := Ops(got), done := done + Dsts(got));
      PolledReturns(Config(), before, after, got);
    }

    /** The dequeue call. The ops now in `deq_ops` belong to the buffers last appended to `done`. */
    method Dequeue(limit: nat)
      requires Inv(numEnq, unused) && held == 0 && Traced() && Polls(limit)
      modifies this`numDeq, this`totalDeq, this`held, this`done
      modifies dev`inflight, dev`stalls, dev`returned, dev`calls, deqOps, opMem, dst
      ensures Inv(numEnq, unused) && held == numDeq && numDeq <= limit && Traced() && Quiet()
      ensures totalDeq == old(totalDeq) + numDeq
      ensures old(done) <= done && BurstDelivered(Config(), Snapshot(numEnq, unused), |old(done)|)
      ensures dev.swift ==> numDeq == Min(limit, |old(dev.inflight)|)
      ensures dev.NewestFirst() ==> BuffersTurned(done[|old(done)|..], Dsts(old(dev.inflight)))
      ensures forall b :: 0 <= b < totalBufs && b !in done[|old(done)|..] ==> dst[b] == old(dst[b])
      ensures dev.stalls <= old(dev.stalls)
      ensures numDeq == 0 && limit > 0 && old(dev.inflight) != [] ==> dev.stalls < old(dev.stalls)
    {
      hide Inv, BurstDelivered, BuffersTurned, Pollable, Traced;
      CountersAgree();
      PollAllowed(limit);
      TakeOps(limit);
      PollTraced(old(dev.calls), limit, numDeq);
    }

    lemma CountersAgree()
      requires Inv(numEnq, unused) && held == 0
      ensures remaining + totalEnq == totalBufs && taken == unused + totalEnq - totalDeq
      ensures totalDeq + |dev.inflight| == totalEnq && src != dst && burstSz > 0
    {
    }

    /** The call and the counters. */
    method TakeOps(limit: nat)
      requires Inv(numEnq, unused) && held == 0
      modifies this`numDeq, this`totalDeq, this`held, this`done
      modifies dev`inflight, dev`stalls, dev`returned, dev`calls, deqOps, opMem, dst
      ensures Inv(numEnq, unused) && held == numDeq && numDeq <= limit
      ensures totalDeq == old(totalDeq) + numDeq && dev.calls == old(dev.calls) + [Deq(limit, numDeq)]
      ensures old(done) <= done && BurstDelivered(Config(), Snapshot(numEnq, unused), |old(done)|)
      ensures dev.swift ==> numDeq == Min(limit, |old(dev.inflight)|)
      ensures dev.NewestFirst() ==> BuffersTurned(done[|old(done)|..], Dsts(old(dev.inflight)))
      ensures forall b :: 0 <= b < totalBufs && b !in done[|old(done)|..] ==> dst[b] == old(dst[b])
      ensures dev.stalls <= old(dev.stalls)
      ensures numDeq == 0 && limit > 0 && old(dev.inflight) != [] ==> dev.stalls < old(dev.stalls)
    {
      hide Good, BurstDelivered, AllReadable, CompDevice.Lossless, BuffersTurned, Turned, CompDevice.NewestFirst;
      var k; ghost var got;
      k, got := Poll(limit);
      if dev.NewestFirst() {
        DstsTurned(got, old(dev.inflight));
      }
      CountReturned(k, got);
    }

    /** The counters after the dequeue call. */
    method CountReturned(k: nat, ghost got: seq<Request>)
      requires Shape() && AllReadable(src[..]) && k == |got| <= deqOps.Length && held == 0 && deqOps[..k] == Ops(got)
      requires numEnq + unused <= Min(burstSz, totalBufs) && unused <= remaining
      requires remaining + totalEnq == totalBufs && totalDeq + |dev.inflight| + k == totalEnq
      requires taken == unused + |dev.inflight| + k
      requires
        var f := Snapshot(numEnq, unused).(held := Ops(got), done := done + Dsts(got));
        Good(Config(), f) && BurstDelivered(Config(), f, |done|)
      modifies this`numDeq, this`totalDeq, this`held, this`done
      ensures Inv(numEnq, unused) && held == numDeq == k && totalDeq == old(totalDeq) + k
      ensures done == old(done) + Dsts(got) && done[|old(done)|..] == Dsts(got)
      ensures BurstDelivered(Config(), Snapshot(numEnq, unused), |old(done)|)
    {
      hide Good, BurstDelivered, AllReadable;
      numDeq, totalDeq, held := k, totalDeq + k, k;
      done := done + Dsts(got);
    }

    /** The device can be polled: `deq_ops` has room for all it holds. */
    lemma DeviceReady()
      requires Inv(numEnq, unused) && held == 0
      ensures dev.Sound(opMem, src, dst)
      ensures |dev.inflight| <= deqOps.Length
    {
      var f := Snapshot(numEnq, unused);
      ProgressFacts(dev.fifo, done, dev.inflight, totalEnq);
      Separate(pool.size, f.free, f.staged, f.flight, f.held);
      forall k | 0 <= k < |dev.inflight| ensures dev.Fits(dev.inflight[k], opMem, src, dst) {
        FlightSound(Config(), f, k);
        ResetFacts(dst[dev.inflight[k].dst], roomSz, outSegSz);
      }
    }

    /** The op deq_ops[k - from] has produced `data` in the chain of buffer done[k]. */
    ghost predicate Yields(from: nat, k: nat, data: seq<byte>)
      reads this, deqOps, opMem, dst, src
    {
      && from <= k < |done| && k - from < deqOps.Length && deqOps[k - from] < opMem.Length
      && done[k] < dst.Length && done[k] < src.Length
      && var op, b := opMem[deqOps[k - from]], done[k];
      && Delivered(op, b, src[b], dst[b]) && op.status == Success
      && data == Input(dst[b], op.produced)
    }

    /** The op in deq_ops[i] has this status. */
    ghost predicate HasStatus(i: nat, status: Status)
      reads deqOps, opMem
    {
      i < deqOps.Length && deqOps[i] < opMem.Length && opMem[deqOps[i]].status == status
    }

    lemma YieldsFacts(from: nat, k: nat, data: seq<byte>)
      requires Yields(from, k, data)
      ensures k < |done| && done[k] < dst.Length && done[k] < src.Length
      ensures Readable(src[done[k]]) && Converted(xform, dev.inflate, Payload(src[done[k]]), data)
    {
    }

    /** What fits the chain fits it by `outSegSz` too if that is the room of its segments. */
    lemma FitsByRoom(i: nat, from: nat, data: seq<byte>)
      requires Inv(numEnq, unused) && i < held && Yields(from, from + i, data) && roomSz == outSegSz
      ensures done[from + i] < totalBufs == |counts| && |data| <= counts[done[from + i]] * outSegSz
    {
      hide Good, AllReadable;
      HeldDone(Config(), Snapshot(numEnq, unused), from + i);
      YieldsLength(from, from + i, data);
      FullDataLen(dst[done[from + i]].segs, roomSz);
      DataLength(dst[done[from + i]].segs);
    }

    /** Status and content of one returned op. */
    lemma ReturnedOp(i: nat, from: nat) returns (data: seq<byte>)
      requires Inv(numEnq, unused) && i < held
      requires BurstDelivered(Config(), Snapshot(numEnq, unused), from)
      ensures from + i < |done| && done[from + i] < totalBufs == |counts|
      ensures deqOps[i] < opMem.Length && opMem[deqOps[i]].dst == done[from + i]
      ensures Readable(src[done[from + i]])
      ensures opMem[deqOps[i]].status == Outcome(dev, xform, src[..], counts, roomSz, done[from + i])
      ensures opMem[deqOps[i]].status == Success ==>
        && Yields(from, from + i, data) && |data| == opMem[deqOps[i]].produced
        && dst[done[from + i]].segs != [] && Valid(dst[done[from + i]].segs)
        && |data| <= DataLen(dst[done[from + i]].segs) == counts[done[from + i]] * roomSz
        && dst[done[from + i]].pktLen == counts[done[from + i]] * outSegSz
        && Converted(xform, dev.inflate, Payload(src[done[from + i]]), data)
    {
      hide Good, AllReadable;
      var f := Snapshot(numEnq, unused);
      GoodFacts(Config(), f);
      HeldDone(Config(), f, from + i);
      var b := done[from + i];
      assert f.held[i] == deqOps[i];
      var op := opMem[deqOps[i]];
      assert Delivered(f.mem[f.held[i]], b, src[..][b], f.dst[b]);
      ResetFacts(dst[b], roomSz, outSegSz);
      data := [];
      if op.status == Success {
        DataLength(dst[b].segs);
        data := Input(dst[b], op.produced);
      }
    }

    /** Status and output of one returned op: rte_pktmbuf_read gives all that was produced. */
    method ReadOne(i: nat, ghost from: nat) returns (op: CompOp, data: Option<seq<byte>>)
      requires Inv(numEnq, unused) && i < held && roomSz == outSegSz
      requires BurstDelivered(Config(), Snapshot(numEnq, unused), from)
      ensures from + i < |done| && done[from + i] < totalBufs == |counts|
      ensures HasStatus(i, op.status)
      ensures Readable(src[done[from + i]])
      ensures op.status == Outcome(dev, xform, src[..], counts, roomSz, done[from + i])
      ensures op.status == Success ==>
        && data.Some? && Yields(from, from + i, data.value) && |data.value| == op.produced
        && op.produced <= counts[done[from + i]] * outSegSz
        && Converted(xform, dev.inflate, Payload(src[done[from + i]]), data.value)
    {
      hide Good, AllReadable, BurstDelivered, Converted, Delivered;
      ghost var out := ReturnedOp(i, from);
      op, data := opMem[deqOps[i]], None;
      if op.status == Success {
        PktReadIsPrefix(dst[done[from + i]], op.produced);
        data := PktRead(dst[op.dst], op.produced);
      }
    }

    /**
     * The trimming of one returned op's chain to what the device produced. It fails if that
     * is more than the chain has room for by `outSegSz`.
     */
    method TrimOne(i: nat, ghost from: nat, ghost data: seq<byte>) returns (ok: bool)
      requires Inv(numEnq, unused) && i < held && Yields(from, from + i, data)
      modifies dst
      ensures from + i < |done| && done[from + i] < totalBufs == |counts|
      ensures ok <==> |data| <= counts[done[from + i]] * outSegSz
      ensures ok ==> Inv(numEnq, unused)
      ensures ok ==> forall b :: 0 <= b < totalBufs && b != done[from + i] ==> dst[b] == old(dst[b])
      ensures ok ==> IsCut(dst[done[from + i]], data, roomSz, outSegSz)
      ensures ok ==> forall k, d :: k != from + i && old(Yields(from, k, d)) ==> Yields(from, k, d)
    {
      hide Good, AllReadable, CompDevice.Lossless, IsCut, Aligned;
      HeldDone(Config(), Snapshot(numEnq, unused), from + i);
      var op := opMem[deqOps[i]];
      ghost var before, b := Snapshot(numEnq, unused), done[from + i];
      YieldsLength(from, from + i, data);
      var chain;
      ok, chain := TrimChain(dst[op.dst], op.produced, outSegSz);
      if !ok {
        return;
      }
      CutChain(dst[b], data, op.produced);
      TrimKeeps(Config(), before, b, chain);
      dst[op.dst] := chain;
      assert Snapshot(numEnq, unused) == before.(dst := before.dst[b := chain]);
    }

    lemma YieldsLength(from: nat, k: nat, data: seq<byte>)
      requires Yields(from, k, data) && outSegSz <= roomSz
      ensures Full(dst[done[k]].segs) && Uniform(dst[done[k]].segs, roomSz) && Valid(dst[done[k]].segs)
      ensures |data| == opMem[deqOps[k - from]].produced && opMem[deqOps[k - from]].dst == done[k]
      ensures |data| <= |Data(dst[done[k]].segs)| && data == Data(dst[done[k]].segs)[..|data|]
    {
      ResetFacts(dst[done[k]], roomSz, outSegSz);
      DataLength(dst[done[k]].segs);
    }

    lemma CutChain(c: Chain, data: seq<byte>, n: nat)
      requires Full(c.segs) && Uniform(c.segs, roomSz) && Valid(c.segs) && outSegSz <= roomSz
      requires n == |data| <= |c.segs| * outSegSz
      requires |data| <= |Data(c.segs)| && data == Data(c.segs)[..|data|]
      ensures IsCut(Chain(n, Trimmed(c.segs, n, outSegSz)), data, roomSz, outSegSz)
      ensures Uniform(Trimmed(c.segs, n, outSegSz), roomSz) && |Trimmed(c.segs, n, outSegSz)| == |c.segs|
    {
      TrimmedShape(c.segs, n, roomSz, outSegSz);
      if Aligned(n, roomSz, outSegSz) {
        TrimmedKeepsAligned(c.segs, n, roomSz, outSegSz);
      }
    }

    /** The release of the returned ops. */
    method Release()
      requires Inv(numEnq, unused) && held == numDeq
      modifies this`taken, this`held, pool`free
      ensures Inv(numEnq, unused) && held == 0
      ensures taken == unused + |dev.inflight|
    {
      hide Good, AllReadable;
      ReleaseKeeps(Config(), Snapshot(numEnq, unused));
      pool.PutBulk(deqOps, 0, numDeq);
      assert deqOps[0..0 + numDeq] == deqOps[..numDeq];
      taken := taken - numDeq;
      held := 0;
      assert deqOps[..held] == [];
    }

    /** Then the calls were those of one round. */
    lemma OneRound()
      requires Traced() && Quiet() && totalEnq == totalDeq == totalBufs
      ensures CalledOnce(dev, callsBefore, totalBufs, burstSz, wide)
    {
    }

    /** When all ops have come back nothing is in use and every buffer has been served once. */
    lemma IterationOver()
      requires Inv(numEnq, unused) && held == 0 && remaining == 0 && totalDeq == totalBufs
      ensures taken == 0 && unused == 0 && dev.inflight == []
      ensures multiset(pool.free) == pool.Objects()
      ensures dev.accepted == history + Range(0, totalBufs) && dev.returned == back + done
      ensures multiset(done) == multiset(Range(0, totalBufs)) && (dev.fifo ==> done == Range(0, totalBufs))
      ensures WellSized(dst[..], roomSz) && SegCounts(dst[..]) == counts && |counts| == totalBufs
    {
      assert Dsts(dev.inflight) == [] && Ops(dev.inflight) == [];
      assert ops[numEnq..numEnq + unused] == [] && deqOps[..held] == [];
      assert done + Dsts(dev.inflight) == done;
    }
  }
}
