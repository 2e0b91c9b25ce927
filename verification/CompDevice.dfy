/**
 * The contract of the compression device behind the rte_compressdev calls. The device
 * may accept and return any part of a burst, and unless it is `fifo` it may return
 * finished operations in any order.
 */
module CompDevices {
  import opened Util
  import opened Mempools
  import opened Mbufs
  import opened Traffic

  datatype Xform = Compress | Decompress

  /** OutOfSpace stands for both RTE_COMP_OP_STATUS_OUT_OF_SPACE_* values. */
  datatype Status = NotProcessed | Success | OutOfSpace | Failure

  /** An rte_comp_op; `src` and `dst` are the indices of m_src and m_dst in the buffer tables. */
  datatype CompOp = CompOp(src: nat, dst: nat, srcLength: nat, chksum: nat, xform: Xform,
                           status: Status, produced: nat)

  /** What the device knows about an operation it holds. */
  datatype Request = Request(op: Obj, src: nat, dst: nat, srcLength: nat, xform: Xform)

  ghost function ToRequest(o: Obj, op: CompOp): (r: Request)
  {
    Request(o, op.src, op.dst, op.srcLength, op.xform)
  }

  ghost function Requests(ids: seq<Obj>, mem: seq<CompOp>): (rs: seq<Request>)
    requires forall k :: 0 <= k < |ids| ==> ids[k] < |mem|
    ensures |rs| == |ids|
    ensures forall k :: 0 <= k < |ids| ==> rs[k] == ToRequest(ids[k], mem[ids[k]])
  {
    seq(|ids|, k requires 0 <= k < |ids| => ToRequest(ids[k], mem[ids[k]]))
  }

  ghost function Ops(rs: seq<Request>): (s: seq<Obj>)
    ensures |s| == |rs|
    ensures forall k :: 0 <= k < |rs| ==> s[k] == rs[k].op
  {
    seq(|rs|, k requires 0 <= k < |rs| => rs[k].op)
  }

  ghost function Dsts(rs: seq<Request>): (s: seq<nat>)
    ensures |s| == |rs|
    ensures forall k :: 0 <= k < |rs| ==> s[k] == rs[k].dst
  {
    seq(|rs|, k requires 0 <= k < |rs| => rs[k].dst)
  }

  lemma OpsDstsConcat(a: seq<Request>, b: seq<Request>)
    ensures Ops(a + b) == Ops(a) + Ops(b)
    ensures Dsts(a + b) == Dsts(a) + Dsts(b)
  {
  }

  /** Taking one request out of a queue. */
  lemma RemoveOne(rs: seq<Request>, j: nat)
    requires j < |rs|
    ensures multiset(rs[..j] + rs[j + 1..]) + multiset{rs[j]} == multiset(rs)
    ensures multiset(Ops(rs[..j] + rs[j + 1..])) + multiset{rs[j].op} == multiset(Ops(rs))
    ensures multiset(Dsts(rs[..j] + rs[j + 1..])) + multiset{rs[j].dst} == multiset(Dsts(rs))
  {
    var a, b, c := rs[..j], [rs[j]], rs[j + 1..];
    assert rs == a + b + c;
    OpsDstsConcat(a + b, c);
    OpsDstsConcat(a, b);
    OpsDstsConcat(a, c);
    assert Ops(b) == [rs[j].op] && Dsts(b) == [rs[j].dst];
  }

  /** Moving one request from the queue to those taken. */
  lemma MoveOne(got: seq<Request>, queue: seq<Request>, j: nat)
    requires j < |queue|
    ensures var got', queue' := got + [queue[j]], queue[..j] + queue[j + 1..];
            && multiset(got') + multiset(queue') == multiset(got) + multiset(queue)
            && (j == 0 ==> got' + queue' == got + queue)
  {
    RemoveOne(queue, j);
  }

  /** The last entries of a queue, the newest first. */
  ghost predicate Turned(got: seq<Request>, queue: seq<Request>)
  {
    |got| <= |queue| && forall i :: 0 <= i < |got| ==> got[i] == queue[|queue| - 1 - i]
  }

  /** `got` has been taken out of a queue, from its front or its back if asked for. */
  ghost predicate TakenOut(front: bool, back: bool, got: seq<Request>, rest: seq<Request>, queue: seq<Request>)
  {
    && |got| + |rest| == |queue| && multiset(got) + multiset(rest) == multiset(queue)
    && (front ==> got + rest == queue)
    && (back ==> Turned(got, queue) && rest == queue[..|queue| - |got|])
  }

  lemma TakeOneOut(front: bool, back: bool, got: seq<Request>, rest: seq<Request>, queue: seq<Request>, j: nat)
    requires TakenOut(front, back, got, rest, queue) && j < |rest|
    requires (front ==> j == 0) && (back ==> j == |rest| - 1)
    ensures TakenOut(front, back, got + [rest[j]], rest[..j] + rest[j + 1..], queue)
  {
    MoveOne(got, rest, j);
  }

  /** What is taken out of a queue without duplicates has none either. */
  lemma PartOfQueue(got: seq<Request>, rest: seq<Request>, queue: seq<Request>)
    requires multiset(got) + multiset(rest) == multiset(queue)
    requires NoDup(Ops(queue)) && NoDup(Dsts(queue))
    ensures NoDup(Ops(got)) && NoDup(Dsts(got))
    ensures forall k :: 0 <= k < |got| ==> got[k] in queue
    ensures |got| + |rest| == |queue|
  {
    assert multiset(got + rest) == multiset(queue);
    SameSize(got + rest, queue);
    SamePermutation(got + rest, queue);
    OpsDstsConcat(got, rest);
    SubNoDup(Ops(got), Ops(queue));
    SubNoDup(Dsts(got), Dsts(queue));
    forall k | 0 <= k < |got| ensures got[k] in queue {
      assert got[k] in multiset(got);
      assert got[k] in multiset(queue);
    }
  }

  /** A permutation of requests permutes their operations and buffers. */
  lemma SamePermutation(a: seq<Request>, b: seq<Request>)
    requires multiset(a) == multiset(b)
    ensures multiset(Ops(a)) == multiset(Ops(b)) && multiset(Dsts(a)) == multiset(Dsts(b))
  {
    var op, dst := (r: Request) => r.op, (r: Request) => r.dst;
    MappedPermutation(op, a, b);
    MappedPermutation(dst, a, b);
    assert Ops(a) == Mapped(op, a) && Ops(b) == Mapped(op, b);
    assert Dsts(a) == Mapped(dst, a) && Dsts(b) == Mapped(dst, b);
  }

  /** The bytes an operation reads. */
  ghost function Input(c: Chain, len: nat): (x: seq<byte>)
    requires Valid(c.segs) && len <= DataLen(c.segs)
  {
    DataLength(c.segs);
    Data(c.segs)[..len]
  }

  ghost predicate Holds(c: Chain, out: seq<byte>)
  {
    Valid(c.segs) && out <= Data(c.segs)
  }

  class CompDevice {
    /** Operations come back in the order in which they were accepted. */
    const fifo: bool
    /** If not, the newest operations come back first. */
    const lifo: bool
    /** All of a burst is taken and all that fits it is returned. */
    const swift: bool
    /** The error counters of the device stay zero. */
    const healthy: bool
    /** Decompression, a function of the compressed bytes; None for bytes that are no stream. */
    const inflate: seq<byte> -> Option<seq<byte>>
    /** One way to compress: its length decides whether the output fits, its bytes are not promised. */
    const deflate: seq<byte> -> seq<byte>
    /** Whether compressing these bytes for this buffer fails for a reason of the device's own. */
    const refuses: (nat, seq<byte>) -> bool

    var inflight: seq<Request>
    /** How many more polls may be fruitless. */
    var stalls: nat
    /** Output buffers of all operations accepted and of all returned so far, in order. */
    ghost var accepted: seq<nat>
    ghost var returned: seq<nat>
    /** All calls so far, with the numbers of ops they asked for. */
    ghost var calls: seq<Call>

    predicate NewestFirst()
    {
      lifo && !fifo
    }

    ghost predicate Lossless()
    {
      forall x :: inflate(deflate(x)) == Some(x)
    }

    constructor (fifo: bool, lifo: bool, swift: bool, healthy: bool, stalls: nat,
                 inflate: seq<byte> -> Option<seq<byte>>, deflate: seq<byte> -> seq<byte>,
                 refuses: (nat, seq<byte>) -> bool)
      requires forall x :: inflate(deflate(x)) == Some(x)
      ensures Lossless() && inflight == [] && accepted == returned == [] && calls == []
      ensures this.fifo == fifo && this.lifo == lifo && this.swift == swift
      ensures this.healthy == healthy && this.stalls == stalls
      ensures this.inflate == inflate && this.deflate == deflate && this.refuses == refuses
    {
      this.fifo, this.lifo, this.swift := fifo, lifo, swift;
      this.healthy, this.stalls := healthy, stalls;
      this.inflate, this.deflate, this.refuses := inflate, deflate, refuses;
      inflight, accepted, returned, calls := [], [], [], [];
    }

    /** The bytes an operation has to find room for; None if it fails. */
    function Product(xform: Xform, b: nat, x: seq<byte>): (y: Option<seq<byte>>)
    {
      if xform == Decompress then inflate(x) else if refuses(b, x) then None else Some(deflate(x))
    }

    /** The status of the operation of buffer `b` on the bytes `x`, with `room` bytes for the output. */
    function StatusOf(xform: Xform, b: nat, x: seq<byte>, room: nat): (s: Status)
      ensures s != NotProcessed
    {
      var y := Product(xform, b, x);
      if y == None then Failure else if |y.value| > room then OutOfSpace else Success
    }

    /**
     * What an operation has done when it is returned: on success, compression has produced
     * any bytes that decompress to the input, and decompression the bytes its input stands
     * for.
     */
    ghost predicate Completed(r: Request, input: Chain, before: Chain, after: Chain, op: CompOp)
    {
      && Valid(input.segs) && r.srcLength <= DataLen(input.segs)
      && Valid(before.segs) && Valid(after.segs)
      && SameShape(before.segs, after.segs) && after.pktLen == before.pktLen
      && op.src == r.src && op.dst == r.dst
      && (op.status == Success ==>
            && op.produced <= DataLen(after.segs)
            && var x, out := Input(input, r.srcLength), Input(after, op.produced);
            && (r.xform == Compress ==> inflate(out) == Some(x))
            && (r.xform == Decompress ==> inflate(x) == Some(out)))
      && op.status == StatusOf(r.xform, r.dst, Input(input, r.srcLength), DataLen(before.segs))
    }

    /** rte_compressdev_enqueue_burst. */
    method EnqueueBurst(ops: array<Obj>, n: nat, opMem: array<CompOp>) returns (k: nat)
      requires n <= ops.Length && forall i :: 0 <= i < n ==> ops[i] < opMem.Length
      modifies this`inflight, this`stalls, this`accepted, this`calls
      ensures k <= n && (swift ==> k == n) && calls == old(calls) + [Enq(n, k)]
      ensures inflight == old(inflight) + Requests(ops[..k], opMem[..])
      ensures accepted == old(accepted) + Dsts(Requests(ops[..k], opMem[..]))
      ensures stalls <= old(stalls) && (k == 0 && n > 0 ==> stalls < old(stalls))
    {
      k :| 0 <= k <= n && (swift ==> k == n) && (k == 0 && n > 0 ==> stalls > 0);
      if k == 0 && n > 0 {
        stalls := stalls - 1;
      }
      accepted := accepted + Dsts(Requests(ops[..k], opMem[..]));
      calls := calls + [Enq(n, k)];
      var i := 0;
      while i < k
        modifies this`inflight
        invariant 0 <= i <= k
        invariant inflight == old(inflight) + Requests(ops[..i], opMem[..])
      {
        var op := opMem[ops[i]];
        assert Requests(ops[..i + 1], opMem[..])
            == Requests(ops[..i], opMem[..]) + [ToRequest(ops[i], op)];
        inflight := inflight + [Request(ops[i], op.src, op.dst, op.srcLength, op.xform)];
        i := i + 1;
      }
    }

    /** enqueue_err_count and dequeue_err_count of rte_compressdev_stats_get. */
    method ErrorCount() returns (n: nat)
      ensures healthy ==> n == 0
    {
      n :| 0 <= n && (healthy ==> n == 0);
    }

    ghost predicate InTables(r: Request, opMem: array<CompOp>, src: array<Chain>, dst: array<Chain>)
    {
      r.op < opMem.Length && r.src < src.Length && r.dst < dst.Length
    }

    ghost predicate Fits(r: Request, opMem: array<CompOp>, src: array<Chain>, dst: array<Chain>)
      reads opMem, src, dst
    {
      && InTables(r, opMem, src, dst)
      && opMem[r.op].src == r.src && opMem[r.op].dst == r.dst
      && Valid(src[r.src].segs) && r.srcLength <= DataLen(src[r.src].segs)
      && Valid(dst[r.dst].segs)
    }

    /** The work on one operation. */
    method Process(r: Request, opMem: array<CompOp>, src: array<Chain>, dst: array<Chain>)
      requires Lossless() && src != dst && Fits(r, opMem, src, dst)
      modifies opMem, dst
      ensures Completed(r, src[r.src], old(dst[r.dst]), dst[r.dst], opMem[r.op])
      ensures forall o :: 0 <= o < opMem.Length && o != r.op ==> opMem[o] == old(opMem[o])
      ensures forall b :: 0 <= b < dst.Length && b != r.dst ==> dst[b] == old(dst[b])
    {
      var input, before := src[r.src], dst[r.dst];
      var x := Gathered(input.segs, r.srcLength);
      GatheredIsPrefix(input.segs, r.srcLength);
      var y := Product(r.xform, r.dst, x);
      if y == None {
        opMem[r.op] := opMem[r.op].(status := Failure, produced := 0);
      } else if |y.value| > DataLen(before.segs) {
        opMem[r.op] := opMem[r.op].(status := OutOfSpace, produced := 0);
      } else {
        opMem[r.op] := opMem[r.op].(status := Success, produced := |y.value|);
        dst[r.dst] := before.(segs := Scatter(before.segs, y.value));
        ScatterReadsBack(before.segs, y.value);
        SameShapeDataLen(before.segs, dst[r.dst].segs);
      }
    }

    /** The queue and the tables it refers to fit together. */
    ghost predicate Sound(opMem: array<CompOp>, src: array<Chain>, dst: array<Chain>)
      reads this`inflight, opMem, src, dst
    {
      && NoDup(Ops(inflight)) && NoDup(Dsts(inflight))
      && forall k :: 0 <= k < |inflight| ==> Fits(inflight[k], opMem, src, dst)
    }

    /** rte_compressdev_dequeue_burst: up to `n` finished operations are stored in `ops`. */
    method DequeueBurst(ops: array<Obj>, n: nat, opMem: array<CompOp>, src: array<Chain>, dst: array<Chain>)
      returns (k: nat, ghost got: seq<Request>)
      requires Lossless() && src != dst && Sound(opMem, src, dst)
      requires Min(n, |inflight|) <= ops.Length
      modifies this`inflight, this`stalls, this`returned, this`calls, ops, opMem, dst
      ensures k == |got| <= Min(n, |old(inflight)|) && returned == old(returned) + Dsts(got)
      ensures calls == old(calls) + [Deq(n, k)]
      ensures multiset(got) + multiset(inflight) == multiset(old(inflight))
      ensures fifo ==> got + inflight == old(inflight)
      ensures swift ==> k == Min(n, |old(inflight)|)
      ensures NewestFirst() ==> Turned(got, old(inflight))
      ensures k <= ops.Length && ops[..k] == Ops(got) && ops[k..] == old(ops[k..])
      ensures Polled(got, old(opMem[..]), opMem[..], src[..], old(dst[..]), dst[..])
      ensures stalls <= old(stalls)
      ensures k == 0 && n > 0 && old(inflight) != [] ==> stalls < old(stalls)
    {
      hide Polled, Completed, Lossless;
      var taken := Choose(n);
      k, got := |taken|, taken;
      returned := returned + Dsts(got);
      calls := calls + [Deq(n, k)];
      PartOfQueue(got, inflight, old(inflight));
      ProcessAll(taken, opMem, src, dst);
      StoreOps(taken, ops);
    }

    static method StoreOps(rs: seq<Request>, ops: array<Obj>)
      requires |rs| <= ops.Length
      modifies ops
      ensures ops[..|rs|] == Ops(rs) && ops[|rs|..] == old(ops[|rs|..])
    {
      forall i | 0 <= i < |rs| {
        ops[i] := rs[i].op;
      }
    }

    /** How many and which operations are ready. */
    method Choose(n: nat) returns (taken: seq<Request>)
      modifies this`inflight, this`stalls
      ensures |taken| <= Min(n, |old(inflight)|)
      ensures multiset(taken) + multiset(inflight) == multiset(old(inflight))
      ensures fifo ==> taken + inflight == old(inflight)
      ensures swift ==> |taken| == Min(n, |old(inflight)|)
      ensures NewestFirst() ==> Turned(taken, old(inflight))
      ensures stalls <= old(stalls)
      ensures |taken| == 0 && n > 0 && old(inflight) != [] ==> stalls < old(stalls)
    {
      var most := Min(n, |inflight|);
      var k :| 0 <= k <= most && (swift ==> k == most) && (k == 0 && most > 0 ==> stalls > 0);
      if k == 0 && most > 0 {
        stalls := stalls - 1;
      }
      taken := TakeBurst(k);
    }

    /** Picks the operations to return: the oldest ones if `fifo`, the newest if `lifo`, else any. */
    method TakeBurst(k: nat) returns (got: seq<Request>)
      requires k <= |inflight|
      modifies this`inflight
      ensures |got| == k
      ensures multiset(got) + multiset(inflight) == multiset(old(inflight))
      ensures fifo ==> got + inflight == old(inflight)
      ensures NewestFirst() ==> Turned(got, old(inflight))
    {
      hide TakenOut;
      got := [];
      NothingTaken(inflight);
      while |got| < k
        invariant |got| <= k && |got| + |inflight| == |old(inflight)|
        invariant TakenOut(fifo, NewestFirst(), got, inflight, old(inflight))
      {
        var j :| 0 <= j < |inflight| && (fifo ==> j == 0) && (NewestFirst() ==> j == |inflight| - 1);
        TakeOneOut(fifo, NewestFirst(), got, inflight, old(inflight), j);
        got, inflight := got + [inflight[j]], inflight[..j] + inflight[j + 1..];
      }
      WhatIsTaken(got, inflight, old(inflight));
    }

    lemma NothingTaken(queue: seq<Request>)
      ensures TakenOut(fifo, NewestFirst(), [], queue, queue)
    {
    }

    lemma WhatIsTaken(got: seq<Request>, rest: seq<Request>, queue: seq<Request>)
      requires TakenOut(fifo, NewestFirst(), got, rest, queue)
      ensures multiset(got) + multiset(rest) == multiset(queue) && (fifo ==> got + rest == queue)
      ensures NewestFirst() ==> Turned(got, queue)
    {
    }

    /** The work on a burst: its operations and output chains change, nothing else does. */
    ghost predicate Polled(got: seq<Request>, mem: seq<CompOp>, mem': seq<CompOp>, src: seq<Chain>,
                           dst: seq<Chain>, dst': seq<Chain>)
    {
      && |mem'| == |mem| && |dst'| == |dst|
      && (forall i :: 0 <= i < |got| ==>
            && got[i].op < |mem| && got[i].src < |src| && got[i].dst < |dst|
            && Completed(got[i], src[got[i].src], dst[got[i].dst], dst'[got[i].dst], mem'[got[i].op]))
      && (forall o :: 0 <= o < |mem| && o !in Ops(got) ==> mem'[o] == mem[o])
      && (forall b :: 0 <= b < |dst| && b !in Dsts(got) ==> dst'[b] == dst[b])
    }

    /** The work on the operations about to be returned. */
    method ProcessAll(rs: seq<Request>, opMem: array<CompOp>, src: array<Chain>, dst: array<Chain>)
      requires Lossless() && src != dst && NoDup(Ops(rs)) && NoDup(Dsts(rs))
      requires forall k :: 0 <= k < |rs| ==> Fits(rs[k], opMem, src, dst)
      modifies opMem, dst
      ensures Polled(rs, old(opMem[..]), opMem[..], src[..], old(dst[..]), dst[..])
    {
      var i := 0;
      while i < |rs|
        invariant 0 <= i <= |rs|
        invariant forall j :: 0 <= j < |rs| ==> InTables(rs[j], opMem, src, dst)
        invariant forall j :: 0 <= j < i ==>
          Completed(rs[j], src[rs[j].src], old(dst[rs[j].dst]), dst[rs[j].dst], opMem[rs[j].op])
        invariant forall j :: i <= j < |rs| ==>
          opMem[rs[j].op] == old(opMem[rs[j].op]) && dst[rs[j].dst] == old(dst[rs[j].dst])
        invariant forall o :: 0 <= o < opMem.Length && o !in Ops(rs) ==> opMem[o] == old(opMem[o])
        invariant forall b :: 0 <= b < dst.Length && b !in Dsts(rs) ==> dst[b] == old(dst[b])
      {
        forall j | 0 <= j < |rs| && j != i ensures rs[j].op != rs[i].op && rs[j].dst != rs[i].dst {
          assert Ops(rs)[j] != Ops(rs)[i] && Dsts(rs)[j] != Dsts(rs)[i];
        }
        assert rs[i].op == Ops(rs)[i] && rs[i].dst == Dsts(rs)[i];
        Process(rs[i], opMem, src, dst);
        i := i + 1;
      }
    }
  }
}
