/**
 * Chains of packet buffers. A segment is an mbuf without its headroom: `bytes` is the
 * memory from `data_off` to `buf_len`, of which the first `dataLen` bytes hold data.
 */
module Mbufs {
  import opened Util

  type byte = bv8

  datatype Seg = Seg(dataLen: nat, bytes: seq<byte>) {
    ghost predicate Valid() {
      dataLen <= |bytes|
    }

    /** buf_len - data_off. */
    function Room(): (n: nat) {
      |bytes|
    }
  }

  datatype Chain = Chain(pktLen: nat, segs: seq<Seg>)

  ghost predicate Valid(segs: seq<Seg>)
  {
    forall k :: 0 <= k < |segs| ==> segs[k].Valid()
  }

  /** All data of a chain, segment after segment. */
  ghost function Data(segs: seq<Seg>): (d: seq<byte>)
    requires Valid(segs)
  {
    if segs == [] then [] else segs[0].bytes[..segs[0].dataLen] + Data(segs[1..])
  }

  /** The number of data bytes in a chain. */
  function DataLen(segs: seq<Seg>): (n: nat)
  {
    if segs == [] then 0 else segs[0].dataLen + DataLen(segs[1..])
  }

  lemma {:induction false} DataLength(segs: seq<Seg>)
    requires Valid(segs)
    ensures |Data(segs)| == DataLen(segs)
  {
    if segs != [] {
      DataLength(segs[1..]);
    }
  }

  lemma {:induction false} DataAppend(a: seq<Seg>, b: seq<Seg>)
    requires Valid(a) && Valid(b)
    ensures Valid(a + b)
    ensures Data(a + b) == Data(a) + Data(b)
    ensures DataLen(a + b) == DataLen(a) + DataLen(b)
  {
    if a == [] {
      assert a + b == b;
    } else {
      assert (a + b)[1..] == a[1..] + b;
      DataAppend(a[1..], b);
    }
  }

  /** Every segment has exactly `room` bytes of memory. */
  ghost predicate Uniform(segs: seq<Seg>, room: nat)
  {
    forall k :: 0 <= k < |segs| ==> segs[k].Room() == room
  }

  /** Every segment is filled to its end, as the loop over an output chain leaves it. */
  ghost predicate Full(segs: seq<Seg>)
  {
    forall k :: 0 <= k < |segs| ==> segs[k].dataLen == segs[k].Room()
  }

  lemma {:induction false} FullDataLen(segs: seq<Seg>, room: nat)
    requires Uniform(segs, room) && Full(segs)
    ensures DataLen(segs) == |segs| * room
  {
    if segs != [] {
      FullDataLen(segs[1..], room);
    }
  }

  /** What a reader of `pkt_len` bytes of the chain sees. */
  ghost function Payload(c: Chain): (p: seq<byte>)
    requires Valid(c.segs)
    requires c.pktLen <= DataLen(c.segs)
    ensures |p| == c.pktLen
  {
    DataLength(c.segs);
    Data(c.segs)[..c.pktLen]
  }

  ghost predicate Readable(c: Chain)
  {
    Valid(c.segs) && c.pktLen <= DataLen(c.segs)
  }

  /** The same buffers with the same lengths; only the bytes may differ. */
  ghost predicate SameShape(a: seq<Seg>, b: seq<Seg>)
  {
    && |a| == |b|
    && forall k :: 0 <= k < |a| ==> a[k].dataLen == b[k].dataLen && a[k].Room() == b[k].Room()
  }

  lemma {:induction false} SameShapeDataLen(a: seq<Seg>, b: seq<Seg>)
    requires SameShape(a, b)
    ensures DataLen(a) == DataLen(b)
  {
    if a != [] {
      SameShapeDataLen(a[1..], b[1..]);
    }
  }

  /** A device's view of an output chain: `out` is laid over the data areas in order. */
  function Scatter(segs: seq<Seg>, out: seq<byte>): (r: seq<Seg>)
    requires forall k :: 0 <= k < |segs| ==> segs[k].dataLen <= |segs[k].bytes|
  {
    if segs == [] then []
    else
      var n := Min(segs[0].dataLen, |out|);
      [segs[0].(bytes := out[..n] + segs[0].bytes[n..])] + Scatter(segs[1..], out[n..])
  }

  lemma ConcatPrefix<T>(a: seq<T>, b: seq<T>, n: nat)
    requires n <= |a| + |b|
    ensures n <= |a| ==> (a + b)[..n] == a[..n]
    ensures n >= |a| ==> (a + b)[..n] == a + b[..n - |a|]
  {
  }

  lemma {:induction false} ScatterReadsBack(segs: seq<Seg>, out: seq<byte>)
    requires Valid(segs) && |out| <= DataLen(segs)
    ensures SameShape(segs, Scatter(segs, out)) && Valid(Scatter(segs, out))
    ensures |out| <= |Data(Scatter(segs, out))|
    ensures Data(Scatter(segs, out))[..|out|] == out
  {
    if segs != [] {
      var n := Min(segs[0].dataLen, |out|);
      var head := segs[0].(bytes := out[..n] + segs[0].bytes[n..]);
      var tail := Scatter(segs[1..], out[n..]);
      ScatterReadsBack(segs[1..], out[n..]);
      assert Scatter(segs, out) == [head] + tail;
      hide Scatter;
      ScatterHead(head, tail, n, out);
    }
  }

  lemma ScatterHead(head: Seg, tail: seq<Seg>, n: nat, out: seq<byte>)
    requires head.Valid() && Valid(tail) && Valid([head] + tail)
    requires n == Min(head.dataLen, |out|) && head.bytes[..n] == out[..n]
    requires |out| - n <= |Data(tail)| && Data(tail)[..|out| - n] == out[n..]
    ensures |out| <= |Data([head] + tail)| && Data([head] + tail)[..|out|] == out
  {
    assert ([head] + tail)[1..] == tail;
    ConcatPrefix(head.bytes[..head.dataLen], Data(tail), |out|);
    assert n < |out| ==> out == out[..n] + out[n..];
  }

  /**
   * The lengths the last loop of an iteration leaves in a chain that received `n` bytes:
   * segments are cut to `segSz` or to what remains; the ones behind the data keep theirs.
   */
  function Trimmed(segs: seq<Seg>, n: nat, segSz: nat): (r: seq<Seg>)
    decreases |segs|
  {
    if n == 0 || segs == [] then segs
    else
      var part := Min(n, segSz);
      [segs[0].(dataLen := part)] + Trimmed(segs[1..], n - part, segSz)
  }

  /** Cutting the lengths of a full chain leaves `n` readable bytes if the walk stays inside it. */
  lemma {:induction false} TrimmedShape(segs: seq<Seg>, n: nat, room: nat, segSz: nat)
    requires Uniform(segs, room) && Full(segs) && segSz <= room && n <= |segs| * segSz
    ensures Valid(segs) && Valid(Trimmed(segs, n, segSz))
    ensures |Trimmed(segs, n, segSz)| == |segs| && Uniform(Trimmed(segs, n, segSz), room)
    ensures n <= DataLen(Trimmed(segs, n, segSz))
    decreases |segs|
  {
    if n != 0 && segs != [] {
      var part := Min(n, segSz);
      OneLess(|segs|, segSz);
      TrimmedShape(segs[1..], n - part, room, segSz);
    }
  }

  /** In segments as large as the cut the content stays where it is. */
  lemma {:induction false} TrimmedKeepsData(segs: seq<Seg>, n: nat, segSz: nat)
    requires Uniform(segs, segSz) && Full(segs) && n <= |segs| * segSz
    ensures Valid(segs) && Valid(Trimmed(segs, n, segSz))
    ensures n <= |Data(segs)| && n <= |Data(Trimmed(segs, n, segSz))|
    ensures Data(Trimmed(segs, n, segSz))[..n] == Data(segs)[..n]
    decreases |segs|
  {
    DataLength(segs);
    FullDataLen(segs, segSz);
    if n != 0 && segs != [] {
      var part := Min(n, segSz);
      var rest := Trimmed(segs[1..], n - part, segSz);
      OneLess(|segs|, segSz);
      TrimmedKeepsData(segs[1..], n - part, segSz);
      TrimmedHead(segs, n, segSz, rest);
    }
  }

  /** Whether cutting a full chain of `room`-byte segments by `segSz` keeps `n` bytes of content. */
  ghost predicate Aligned(n: nat, room: nat, segSz: nat)
  {
    segSz == room || n <= segSz
  }

  lemma TrimmedKeepsAligned(segs: seq<Seg>, n: nat, room: nat, segSz: nat)
    requires Uniform(segs, room) && Full(segs) && segSz <= room && n <= |segs| * segSz
    requires Aligned(n, room, segSz)
    ensures Valid(segs) && Valid(Trimmed(segs, n, segSz))
    ensures n <= |Data(segs)| && n <= |Data(Trimmed(segs, n, segSz))|
    ensures Data(Trimmed(segs, n, segSz))[..n] == Data(segs)[..n]
  {
    if segSz == room {
      TrimmedKeepsData(segs, n, segSz);
    } else if n > 0 {
      TrimmedInFirst(segs, n, room, segSz);
    }
  }

  lemma TrimmedInFirst(segs: seq<Seg>, n: nat, room: nat, segSz: nat)
    requires Uniform(segs, room) && Full(segs) && 0 < n <= segSz <= room && n <= |segs| * segSz
    ensures Valid(segs) && Valid(Trimmed(segs, n, segSz))
    ensures n <= |Data(segs)| && n <= |Data(Trimmed(segs, n, segSz))|
    ensures Data(Trimmed(segs, n, segSz))[..n] == Data(segs)[..n]
  {
    assert segs != [];
    var head := segs[0].(dataLen := n);
    assert Trimmed(segs, n, segSz) == [head] + segs[1..];
    assert ([head] + segs[1..])[1..] == segs[1..];
    ConcatPrefix(head.bytes[..n], Data(segs[1..]), n);
    ConcatPrefix(segs[0].bytes, Data(segs[1..]), n);
  }

  /** A full chain of zeros in the first segment and ones in the others. */
  ghost function Marked(count: nat, room: nat): (segs: seq<Seg>)
    ensures |segs| == count && Uniform(segs, room) && Full(segs)
    ensures forall k :: 0 <= k < count ==> segs[k].bytes == seq(room, _ => if k == 0 then 0 else 1)
  {
    seq(count, k => Seg(room, seq(room, _ => if k == 0 then 0 else 1)))
  }

  /** The content survives whatever it is exactly if it is aligned. */
  lemma TrimmedKeepsExactly(count: nat, n: nat, room: nat, segSz: nat)
    requires 0 < segSz <= room && n <= count * segSz
    ensures (forall segs :: |segs| == count && Uniform(segs, room) && Full(segs) ==> CutKeeps(segs, n, segSz))
       <==> Aligned(n, room, segSz)
  {
    if Aligned(n, room, segSz) {
      forall segs | |segs| == count && Uniform(segs, room) && Full(segs) ensures CutKeeps(segs, n, segSz) {
        TrimmedKeepsAligned(segs, n, room, segSz);
      }
    } else {
      MarkedIsCut(count, n, room, segSz);
    }
  }

  /** Cut by `segSz`, the chain still begins with the `n` bytes it began with. */
  ghost predicate CutKeeps(segs: seq<Seg>, n: nat, segSz: nat)
  {
    && Valid(segs) && Valid(Trimmed(segs, n, segSz))
    && n <= |Data(segs)| && n <= |Data(Trimmed(segs, n, segSz))|
    && Data(Trimmed(segs, n, segSz))[..n] == Data(segs)[..n]
  }

  lemma MarkedIsCut(count: nat, n: nat, room: nat, segSz: nat)
    requires 0 < segSz < room && segSz < n <= count * segSz
    ensures !CutKeeps(Marked(count, room), n, segSz)
  {
    var segs := Marked(count, room);
    assert 1 < count by {
      MulCancel(1, count, segSz);
    }
    var cut := Trimmed(segs, n, segSz);
    TrimmedShape(segs, n, room, segSz);
    CutTwice(segs, n, segSz);
    hide Trimmed;
    ByteInFirst(segs, segSz);
    ByteInSecond(cut);
    if |Data(segs)| >= n && |Data(cut)| >= n {
      DifferAt(Data(segs), Data(cut), n, segSz);
    }
  }

  lemma CutTwice(segs: seq<Seg>, n: nat, segSz: nat)
    requires |segs| > 1 && 0 < segSz < n
    ensures var cut := Trimmed(segs, n, segSz);
            |cut| > 1 && cut[0] == segs[0].(dataLen := segSz) && cut[1].dataLen > 0 && cut[1].bytes == segs[1].bytes
  {
    assert Trimmed(segs, n, segSz) == [segs[0].(dataLen := segSz)] + Trimmed(segs[1..], n - segSz, segSz);
    assert segs[1..][0] == segs[1];
  }

  lemma ByteInFirst(segs: seq<Seg>, k: nat)
    requires Valid(segs) && segs != [] && k < segs[0].dataLen
    ensures k < |Data(segs)| && Data(segs)[k] == segs[0].bytes[k]
  {
  }

  lemma ByteInSecond(segs: seq<Seg>)
    requires Valid(segs) && |segs| > 1 && segs[1].dataLen > 0
    ensures segs[0].dataLen < |Data(segs)| && Data(segs)[segs[0].dataLen] == segs[1].bytes[0]
  {
    assert segs[1..][0] == segs[1];
    ByteInFirst(segs[1..], 0);
  }

  lemma DifferAt<T>(a: seq<T>, b: seq<T>, n: nat, k: nat)
    requires k < n <= |a| && n <= |b| && a[k] != b[k]
    ensures a[..n] != b[..n]
  {
    assert a[..n][k] != b[..n][k];
  }

  lemma OneLess(k: nat, size: nat)
    requires k > 0
    ensures (k - 1) * size == k * size - size >= 0
  {
    MulLe(0, k - 1, size);
  }

  lemma TrimmedHead(segs: seq<Seg>, n: nat, segSz: nat, rest: seq<Seg>)
    requires segs != [] && n != 0 && segs[0].Room() == segs[0].dataLen == segSz
    requires Valid(segs) && Valid(rest) && rest == Trimmed(segs[1..], n - Min(n, segSz), segSz)
    requires n - Min(n, segSz) <= |Data(segs[1..])| && n - Min(n, segSz) <= |Data(rest)|
    requires Data(rest)[..n - Min(n, segSz)] == Data(segs[1..])[..n - Min(n, segSz)]
    ensures Valid(Trimmed(segs, n, segSz))
    ensures n <= |Data(segs)| && n <= |Data(Trimmed(segs, n, segSz))|
    ensures Data(Trimmed(segs, n, segSz))[..n] == Data(segs)[..n]
  {
    var part := Min(n, segSz);
    var trimmed := [segs[0].(dataLen := part)] + rest;
    assert Trimmed(segs, n, segSz) == trimmed;
    hide Trimmed;
    assert trimmed[1..] == rest;
    assert Data(segs) == segs[0].bytes + Data(segs[1..]);
    assert Data(trimmed) == segs[0].bytes[..part] + Data(rest);
    hide Data;
    ConcatPrefix(segs[0].bytes, Data(segs[1..]), n);
    ConcatPrefix(segs[0].bytes[..part], Data(rest), n);
  }

  /** The rest fits behind a segment exactly if everything fits with it. */
  lemma RoomForMore(left: nat, remaining: nat, segSz: nat)
    requires left > 0 && 0 < remaining
    ensures remaining - Min(remaining, segSz) <= (left - 1) * segSz <==> remaining <= left * segSz
  {
    OneLess(left, segSz);
  }

  /**
   * The loop that sets pkt_len and the segments' data_len from the produced size. It runs off
   * the chain, to a null pointer, exactly if the produced bytes exceed its `segSz`-byte parts.
   */
  method TrimChain(c: Chain, produced: nat, segSz: nat) returns (ok: bool, r: Chain)
    requires segSz > 0
    ensures ok <==> produced <= |c.segs| * segSz
    ensures ok ==> r == Chain(produced, Trimmed(c.segs, produced, segSz))
  {
    hide Trimming;
    var segs := c.segs;
    var m, remaining := 0, produced;
    TrimmingStarts(c.segs, produced, segSz);
    while remaining > 0
      invariant 0 <= m <= |segs| == |c.segs| && 0 <= remaining
      invariant Trimming(c.segs, segs, m, remaining, produced, segSz)
    {
      if m == |segs| {
        TrimmingFails(c.segs, segs, remaining, produced, segSz);
        return false, c;
      }
      TrimmingStep(c.segs, segs, m, remaining, produced, segSz);
      var part := Min(remaining, segSz);
      segs := segs[m := segs[m].(dataLen := part)];
      remaining := remaining - part;
      m := m + 1;
    }
    TrimmingEnds(c.segs, segs, m, produced, segSz);
    return true, Chain(produced, segs);
  }

  /** After `m` segments `remaining` bytes are still to be found room for. */
  ghost predicate Trimming(all: seq<Seg>, segs: seq<Seg>, m: nat, remaining: nat, produced: nat, segSz: nat)
  {
    && m <= |segs| == |all| && segs[m..] == all[m..]
    && (remaining <= (|all| - m) * segSz <==> produced <= |all| * segSz)
    && segs[..m] + Trimmed(all[m..], remaining, segSz) == Trimmed(all, produced, segSz)
  }

  lemma TrimmingStarts(all: seq<Seg>, produced: nat, segSz: nat)
    ensures Trimming(all, all, 0, produced, produced, segSz)
  {
    hide Trimmed;
    assert all[0..] == all && [] + Trimmed(all, produced, segSz) == Trimmed(all, produced, segSz);
    assert all[..0] == [];
  }

  lemma TrimmingStep(all: seq<Seg>, segs: seq<Seg>, m: nat, remaining: nat, produced: nat, segSz: nat)
    requires Trimming(all, segs, m, remaining, produced, segSz) && m < |segs| && remaining > 0
    ensures Trimming(all, segs[m := segs[m].(dataLen := Min(remaining, segSz))], m + 1,
                     remaining - Min(remaining, segSz), produced, segSz)
  {
    hide Trimmed;
    RoomForMore(|segs| - m, remaining, segSz);
    TrimStep(all, segs, m, remaining, segSz);
  }

  lemma TrimmingEnds(all: seq<Seg>, segs: seq<Seg>, m: nat, produced: nat, segSz: nat)
    requires Trimming(all, segs, m, 0, produced, segSz)
    ensures segs == Trimmed(all, produced, segSz) && produced <= |all| * segSz
  {
    NothingToTrim(all[m..], segSz);
    MulLe(0, |all| - m, segSz);
    hide Trimmed;
    assert segs == segs[..m] + segs[m..];
  }

  lemma TrimmingFails(all: seq<Seg>, segs: seq<Seg>, remaining: nat, produced: nat, segSz: nat)
    requires Trimming(all, segs, |segs|, remaining, produced, segSz) && remaining > 0
    ensures produced > |all| * segSz
  {
  }

  lemma NothingToTrim(segs: seq<Seg>, segSz: nat)
    ensures Trimmed(segs, 0, segSz) == segs
  {
  }

  lemma TrimStep(all: seq<Seg>, segs: seq<Seg>, m: nat, remaining: nat, segSz: nat)
    requires m < |segs| == |all| && segs[m..] == all[m..] && remaining > 0
    ensures
      var part := Min(remaining, segSz);
      var segs' := segs[m := segs[m].(dataLen := part)];
      && segs'[m + 1..] == all[m + 1..]
      && segs'[..m + 1] + Trimmed(all[m + 1..], remaining - part, segSz)
         == segs[..m] + Trimmed(all[m..], remaining, segSz)
  {
    hide Trimmed;
    var part := Min(remaining, segSz);
    var head, tail := segs[m].(dataLen := part), Trimmed(all[m + 1..], remaining - part, segSz);
    assert segs[m] == segs[m..][0] == all[m..][0];
    assert segs[m + 1..] == segs[m..][1..] == all[m + 1..];
    TrimmedFirst(all, m, remaining, segSz);
    UpdatedPrefix(segs, m, head);
    ConcatAssociates(segs[..m], [head], tail);
  }

  lemma TrimmedFirst(all: seq<Seg>, m: nat, remaining: nat, segSz: nat)
    requires m < |all| && remaining > 0
    ensures var part := Min(remaining, segSz);
            Trimmed(all[m..], remaining, segSz)
            == [all[m].(dataLen := part)] + Trimmed(all[m + 1..], remaining - part, segSz)
  {
    assert all[m..][1..] == all[m + 1..];
  }

  lemma UpdatedPrefix<T>(s: seq<T>, m: nat, x: T)
    requires m < |s|
    ensures s[m := x][..m + 1] == s[..m] + [x] && s[m := x][m + 1..] == s[m + 1..]
  {
  }

  /** The reset of an output chain before an op is given to the device. */
  function ResetSegs(segs: seq<Seg>): (r: seq<Seg>)
    ensures |r| == |segs|
    ensures forall k :: 0 <= k < |r| ==> r[k] == segs[k].(dataLen := segs[k].Room())
  {
    seq(|segs|, k requires 0 <= k < |segs| => segs[k].(dataLen := segs[k].Room()))
  }

  /** The loop that resets pkt_len and every data_len of an output chain. */
  method ResetChain(c: Chain, outSegSz: nat) returns (r: Chain)
    ensures r == Chain(outSegSz * |c.segs|, ResetSegs(c.segs))
  {
    var segs := c.segs;
    var m := 0;
    while m < |segs|
      invariant 0 <= m <= |segs| == |c.segs|
      invariant forall k :: 0 <= k < m ==> segs[k] == c.segs[k].(dataLen := c.segs[k].Room())
      invariant forall k :: m <= k < |segs| ==> segs[k] == c.segs[k]
    {
      segs := segs[m := segs[m].(dataLen := segs[m].Room())];
      m := m + 1;
    }
    assert segs == ResetSegs(c.segs);
    r := Chain(outSegSz * |c.segs|, segs);
  }

  /** The first `n` data bytes of a chain, copied segment by segment. */
  function Gathered(segs: seq<Seg>, n: nat): (d: seq<byte>)
    requires forall k :: 0 <= k < |segs| ==> segs[k].dataLen <= |segs[k].bytes|
    requires n <= DataLen(segs)
    decreases |segs|
  {
    if n == 0 || segs == [] then []
    else
      var part := Min(n, segs[0].dataLen);
      segs[0].bytes[..part] + Gathered(segs[1..], n - part)
  }

  /**
   * rte_pktmbuf_read from offset 0: the bytes at the returned address, or None for NULL.
   * When they lie in the first segment the length is not compared with pkt_len.
   */
  function PktRead(c: Chain, len: nat): (r: Option<seq<byte>>)
    requires c.segs != [] && forall k :: 0 <= k < |c.segs| ==> c.segs[k].dataLen <= |c.segs[k].bytes|
    requires c.pktLen <= DataLen(c.segs)
  {
    if len <= c.segs[0].dataLen then Some(c.segs[0].bytes[..len])
    else if len > c.pktLen then None
    else Some(Gathered(c.segs, len))
  }

  lemma {:induction false} GatheredIsPrefix(segs: seq<Seg>, n: nat)
    requires Valid(segs) && n <= DataLen(segs)
    ensures |Data(segs)| == DataLen(segs)
    ensures Gathered(segs, n) == Data(segs)[..n]
    decreases |segs|
  {
    DataLength(segs);
    if n != 0 && segs != [] {
      var part := Min(n, segs[0].dataLen);
      GatheredIsPrefix(segs[1..], n - part);
    }
  }

  /** Both branches of the read give the first `len` data bytes of the chain. */
  lemma PktReadIsPrefix(c: Chain, len: nat)
    requires Valid(c.segs) && c.segs != [] && len <= c.pktLen <= DataLen(c.segs)
    ensures |Data(c.segs)| == DataLen(c.segs)
    ensures PktRead(c, len) == Some(Data(c.segs)[..len])
  {
    GatheredIsPrefix(c.segs, len);
    if len <= c.segs[0].dataLen {
      assert Data(c.segs)[..len] == c.segs[0].bytes[..len];
    }
  }

  /** The numbers of segments of the chains. */
  ghost function SegCounts(bufs: seq<Chain>): (n: seq<nat>)
    ensures |n| == |bufs|
    ensures forall b :: 0 <= b < |bufs| ==> n[b] == |bufs[b].segs|
  {
    seq(|bufs|, b requires 0 <= b < |bufs| => |bufs[b].segs|)
  }

  ghost predicate AllReadable(bufs: seq<Chain>)
  {
    forall b :: 0 <= b < |bufs| ==> Readable(bufs[b])
  }

  /** What the chains hold, chain by chain. */
  ghost function Payloads(bufs: seq<Chain>): (p: seq<seq<byte>>)
    requires AllReadable(bufs)
    ensures |p| == |bufs|
    ensures forall b :: 0 <= b < |bufs| ==> p[b] == Payload(bufs[b])
  {
    seq(|bufs|, b requires 0 <= b < |bufs| => Payload(bufs[b]))
  }

  lemma {:induction false} DataLenBound(segs: seq<Seg>, segSz: nat)
    requires Valid(segs) && Uniform(segs, segSz)
    ensures DataLen(segs) <= |segs| * segSz
  {
    if segs != [] {
      assert segs[0].Valid() && segs[0].Room() == segSz;
      DataLenBound(segs[1..], segSz);
      assert |segs| * segSz == |segs[1..]| * segSz + segSz;
    }
  }
}
