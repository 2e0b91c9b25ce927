/** Buffer sizes, memory and input chunking of the compression test (comp_perf_test_common.c). */
module CompCommon {
  import opened Util
  import opened Mempools
  import opened Mbufs
  import opened Orders

  const UINT16_MAX := 65535
  const HEADROOM := 128
  const MIN_COMPRESSED_BUF_SIZE := 8
  /** (UINT16_MAX - HEADROOM) / 1.1, rounded down. */
  const MAX_SEG_SIZE := 59460

  datatype TestOp = CompressOnly | DecompressOnly | CompressDecompress

  datatype TestData = TestData(input: seq<byte>, segSz: nat, burstSz: nat, maxSglSegs: nat,
                               numIter: nat, testOp: TestOp, externalMbufs: bool)
  {
    /** What the option parser and the reading of the input file let through. */
    ghost predicate Valid()
    {
      && MIN_COMPRESSED_BUF_SIZE <= segSz <= MAX_SEG_SIZE
      && 1 <= burstSz <= UINT16_MAX
      && 1 <= maxSglSegs <= UINT16_MAX
      && 1 <= numIter
      && 1 <= |input| < 0x1_0000_0000
      && (testOp == DecompressOnly ==> |input| <= segSz * maxSglSegs)
    }

    /** The bytes one chain of input segments can take. */
    function ChunkSz(): (n: nat) {
      maxSglSegs * segSz
    }

    /** The memory zones taken by `n` segments. */
    function Zones(n: nat): (z: nat) {
      if externalMbufs then n else 0
    }

    function TotalSegs(): (n: nat)
      requires segSz > 0
    {
      if testOp == DecompressOnly then maxSglSegs else DivCeil(|input|, segSz)
    }

    function TotalBufs(): (n: nat)
      requires segSz > 0 && maxSglSegs > 0
    {
      DivCeil(TotalSegs(), maxSglSegs)
    }
  }

  ghost predicate IsPow2(n: nat)
  {
    exists e: nat :: n == Pow2(e)
  }

  lemma HalfOfPow2(n: nat)
    requires IsPow2(n) && n > 1
    ensures n % 2 == 0 && IsPow2(n / 2)
  {
    var e: nat :| n == Pow2(e);
    assert n / 2 == Pow2(e - 1);
  }

  /** The least power of two above `n`. */
  function PowerAbove(n: nat): (p: nat)
    ensures n < p && (n > 0 ==> p <= 2 * n)
  {
    if n == 0 then 1 else 2 * PowerAbove(n / 2)
  }

  lemma {:induction false} PowerAboveIsPow2(n: nat)
    ensures IsPow2(PowerAbove(n))
  {
    if n == 0 {
      assert 1 == Pow2(0);
    } else {
      PowerAboveIsPow2(n / 2);
      var e: nat :| PowerAbove(n / 2) == Pow2(e);
      assert PowerAbove(n) == Pow2(e + 1);
    }
  }

  /** No other power of two is above `n` and at most its double. */
  lemma PowerAboveIsOnly(n: nat, r: nat)
    requires n > 0 && IsPow2(r) && n < r <= 2 * n
    ensures r == PowerAbove(n)
  {
    hide Pow2, PowerAbove;
    PowerAboveIsPow2(n);
    var e: nat, f: nat :| r == Pow2(e) && PowerAbove(n) == Pow2(f);
    if e < f {
      DoubleBelow(e, f);
    } else if f < e {
      DoubleBelow(f, e);
    }
  }

  lemma DoubleBelow(e: nat, f: nat)
    requires e < f
    ensures 2 * Pow2(e) <= Pow2(f)
  {
    Pow2Le(e + 1, f);
    assert Pow2(e + 1) == 2 * Pow2(e);
  }

  /** The size of an output segment. */
  function BufSize(segSz: nat): (r: nat)
  {
    if segSz == 0 then MIN_COMPRESSED_BUF_SIZE
    else if segSz > UINT16_MAX / 2 then segSz * 11 / 10
    else PowerAbove(segSz)
  }

  /**
   * find_buf_size. `i & size` is the test of one bit, as `i` is a power of two; the ratio 1.1
   * is taken as 11/10.
   */
  method FindBufSize(inputSize: nat) returns (r: nat)
    requires inputSize <= UINT16_MAX
    ensures r == BufSize(inputSize)
    ensures inputSize == 0 ==> r == MIN_COMPRESSED_BUF_SIZE
    ensures 0 < inputSize <= UINT16_MAX / 2 ==> IsPow2(r) && inputSize < r <= 2 * inputSize
    ensures UINT16_MAX / 2 < inputSize ==> r == inputSize * 11 / 10
    ensures MIN_COMPRESSED_BUF_SIZE <= inputSize <= MAX_SEG_SIZE ==>
              inputSize < r && r + HEADROOM <= UINT16_MAX
  {
    var size := if inputSize == 0 then MIN_COMPRESSED_BUF_SIZE else 2 * inputSize;
    var i := UINT16_MAX + 1;
    SixteenBits();
    TopBit(size, i);
    while size / i % 2 == 0
      invariant 1 <= i <= UINT16_MAX + 1 && IsPow2(i)
      invariant 0 < size < 2 * i
      invariant size / i % 2 == 0 <==> size < i
      decreases i
    {
      HalfOfPow2(i);
      i := i / 2;
      TopBit(size, i);
    }
    PowersBelow(i);
    r := if i > (UINT16_MAX + 1) / 2 then inputSize * 11 / 10 else i;
    if 0 < inputSize <= UINT16_MAX / 2 {
      PowerAboveIsOnly(inputSize, r);
    }
  }

  /** Testing the top bit that a number may have. */
  lemma TopBit(size: nat, i: nat)
    requires i > 0 && size < 2 * i
    ensures size / i % 2 == 0 <==> size < i
  {
    if size < i {
      assert size / i == 0;
    } else {
      assert size / i == 1;
    }
  }

  lemma SixteenBits()
    ensures Pow2(2) == 4 && Pow2(3) == 8 && Pow2(4) == 16
    ensures Pow2(15) == 32768 && Pow2(16) == 65536 && IsPow2(65536)
  {
    assert Pow2(8) == 256;
    assert Pow2(12) == 4096;
    assert 65536 == Pow2(16);
  }

  /** There is no power of two strictly between 2^15 and 2^16, nor between 4 and 16 other than 8. */
  lemma PowersBelow(i: nat)
    requires IsPow2(i)
    ensures i > 32768 ==> i >= 65536
    ensures 4 < i < 16 ==> i == 8
  {
    var e: nat :| i == Pow2(e);
    SixteenBits();
    if e <= 15 {
      Pow2Le(e, 15);
    } else {
      Pow2Le(16, e);
    }
    if e <= 2 {
      Pow2Le(e, 2);
    } else if e >= 4 {
      Pow2Le(4, e);
    }
  }

  /** A quotient pinned between two multiples. */
  lemma DivCeilUnique(a: nat, b: nat, q: nat)
    requires b > 0 && a <= q * b && (q > 0 ==> (q - 1) * b < a)
    ensures DivCeil(a, b) == q
  {
    var p := DivCeil(a, b);
    DivCeilCovers(a, b);
    if p < q {
      MulLe(p, q - 1, b);
    } else if p > q {
      MulLe(q, p - 1, b);
    }
  }

  /** The first `m` segments of a chunk take what `m` segments can take. */
  lemma ChunkSegs(r: nat, m: nat, s: nat)
    requires s > 0
    ensures DivCeil(Min(r, m * s), s) == Min(m, DivCeil(r, s))
  {
    DivCeilCovers(r, s);
    if r <= m * s {
      if DivCeil(r, s) > m {
        MulLe(m, DivCeil(r, s) - 1, s);
      }
    } else {
      if DivCeil(r, s) < m {
        MulLe(DivCeil(r, s), m, s);
      }
      assert m > 0 ==> (m - 1) * s < m * s by {
        assert m > 0 ==> (m - 1) * s + s == m * s;
      }
      DivCeilUnique(m * s, s, m);
    }
  }

  /** Skipping `u` whole segments. */
  lemma SkipSegs(n: nat, u: nat, s: nat)
    requires s > 0 && u * s <= n
    ensures DivCeil(n - u * s, s) == DivCeil(n, s) - u
  {
    var q := DivCeil(n - u * s, s);
    DivCeilCovers(n - u * s, s);
    assert (q + u) * s == q * s + u * s;
    if q > 0 {
      assert (q - 1 + u) * s == (q - 1) * s + u * s;
    } else if u > 0 {
      assert (u - 1) * s == u * s - s;
    }
    DivCeilUnique(n, s, q + u);
  }

  /** Segment `u` holds data exactly when data is left behind the `u` segments before it. */
  lemma SegUsed(n: nat, u: nat, s: nat)
    requires s > 0
    ensures u * s < n <==> u < DivCeil(n, s)
  {
    DivCeilCovers(n, s);
    if u < DivCeil(n, s) {
      MulLe(u, DivCeil(n, s) - 1, s);
    } else {
      MulLe(DivCeil(n, s), u, s);
    }
  }

  /** The part of the input that chain `i` is meant to carry. */
  ghost function Chunk(input: seq<byte>, i: nat, size: nat): (c: seq<byte>)
  {
    assert i * size <= (i + 1) * size by { MulLe(i, i + 1, size); }
    input[Min(i * size, |input|)..Min((i + 1) * size, |input|)]
  }

  /** A fresh mbuf: no data yet. */
  function NewSeg(room: nat): (s: Seg)
    ensures s.Valid() && s.Room() == room && s.dataLen == 0
  {
    Seg(0, seq(room, _ => 0))
  }

  /** rte_pktmbuf_append on a single segment: None when the tailroom is too small. */
  function Append(s: Seg, len: nat): (r: Option<Seg>)
    requires s.Valid()
  {
    if len > s.Room() - s.dataLen then None else Some(s.(dataLen := s.dataLen + len))
  }

  /** Copying to the start of the data area. */
  function CopyIn(s: Seg, data: seq<byte>): (r: Seg)
    requires s.Valid() && |data| <= s.Room()
    ensures r.Valid() && r.Room() == s.Room() && r.dataLen == s.dataLen
    ensures |data| == s.dataLen ==> r.bytes[..r.dataLen] == data
  {
    s.(bytes := data + s.bytes[|data|..])
  }

  /** The running state of prepare_bufs for one of its two families of chains. */
  datatype Cursor = Cursor(pos: nat, remaining: nat, free: nat, zone: nat)

  /** What one call of FillChain makes out of the input. */
  ghost predicate Filled(td: TestData, c: Cursor, c': Cursor, chain: Chain)
    requires c.pos <= |td.input| && td.segSz > 0
  {
    var n := Min(c.remaining, td.ChunkSz());
    && c'.pos == c.pos + n && c'.remaining == c.remaining - n
    && Valid(chain.segs) && Uniform(chain.segs, td.segSz)
    && chain.pktLen == DataLen(chain.segs) == n
    && c.pos + n <= |td.input| && Data(chain.segs) == td.input[c.pos..c.pos + n]
    && |chain.segs| == DivCeil(n, td.segSz)
    && c'.free == c.free - |chain.segs|
    && c'.zone == c.zone + td.Zones(|chain.segs|)
  }

  /** The chain under construction, after `|segs|` segments. */
  ghost predicate Filling(td: TestData, c: Cursor, c': Cursor, segs: seq<Seg>)
    requires c.pos <= |td.input|
  {
    && c'.pos + c'.remaining == |td.input| == c.pos + c.remaining && c.pos <= c'.pos
    && Valid(segs) && Uniform(segs, td.segSz)
    && DataLen(segs) == c'.pos - c.pos && Data(segs) == td.input[c.pos..c'.pos]
    && c'.free == c.free - |segs|
    && c'.zone == c.zone + td.Zones(|segs|)
    && c'.pos - c.pos == Min(c.remaining, |segs| * td.segSz)
    && (|segs| > 0 ==> (|segs| - 1) * td.segSz < c'.pos - c.pos)
  }

  /** One segment: allocation, attachment of external memory, append and copy. */
  method FillSegment(td: TestData, zones: nat, c: Cursor) returns (ok: bool, seg: Seg, c': Cursor)
    requires c.pos + c.remaining == |td.input|
    requires td.externalMbufs ==> c.zone + c.free == zones
    ensures ok <==> c.free > 0
    ensures ok ==>
      var n := Min(c.remaining, td.segSz);
      && seg.Valid() && seg.Room() == td.segSz && seg.dataLen == n
      && seg.bytes[..n] == td.input[c.pos..c.pos + n]
      && c' == Cursor(c.pos + n, c.remaining - n, c.free - 1, c.zone + td.Zones(1))
  {
    seg, c' := NewSeg(td.segSz), c;
    if c.free == 0 {
      return false, seg, c';
    }
    if td.externalMbufs {
      assert c.zone < zones;
      c' := c'.(zone := c.zone + 1);
    }
    var dataSz := Min(c.remaining, td.segSz);
    var appended := Append(seg, dataSz);
    if appended == None {
      return false, seg, c';
    }
    seg := CopyIn(appended.value, td.input[c.pos..c.pos + dataSz]);
    c' := c'.(pos := c.pos + dataSz, remaining := c.remaining - dataSz, free := c.free - 1);
    ok := true;
  }

  lemma DataOfOne(seg: Seg)
    requires seg.Valid()
    ensures Valid([seg]) && Data([seg]) == seg.bytes[..seg.dataLen] && DataLen([seg]) == seg.dataLen
  {
    assert Data([seg]) == seg.bytes[..seg.dataLen] + Data([seg][1..]);
    assert DataLen([seg]) == seg.dataLen + DataLen([seg][1..]);
  }

  /** The bytes in the chain after one more segment. */
  lemma BytesSoFar(k: nat, s: nat, all: nat, done: nat, n: nat)
    requires s > 0 && done == Min(all, k * s) && done < all && n == Min(all - done, s)
    ensures done + n == Min(all, (k + 1) * s) && k * s < done + n
  {
    MulStep(k, s);
  }

  lemma FillingStep(td: TestData, c: Cursor, c': Cursor, segs: seq<Seg>, seg: Seg, c'': Cursor)
    requires c.pos <= |td.input| && Filling(td, c, c', segs) && c'.remaining > 0 && td.segSz > 0
    requires c'.free > 0
    requires
      var n := Min(c'.remaining, td.segSz);
      && seg.Valid() && seg.Room() == td.segSz && seg.dataLen == n
      && seg.bytes[..n] == td.input[c'.pos..c'.pos + n]
      && c'' == Cursor(c'.pos + n, c'.remaining - n, c'.free - 1, c'.zone + td.Zones(1))
    ensures Filling(td, c, c'', segs + [seg])
  {
    DataOfOne(seg);
    hide Data, DataLen;
    DataAppend(segs, [seg]);
    BytesSoFar(|segs|, td.segSz, c.remaining, c'.pos - c.pos, c''.pos - c'.pos);
    assert td.input[c.pos..c'.pos] + td.input[c'.pos..c''.pos] == td.input[c.pos..c''.pos];
  }

  /**
   * The loop that allocates segments of `segSz` bytes, copies the next part of the input into
   * them and chains them up: prepare_bufs does this for the input chains when compressing
   * and for the compressed chains when only decompressing.
   */
  method FillChain(td: TestData, zones: nat, c: Cursor) returns (ok: bool, chain: Chain, c': Cursor)
    requires td.Valid() && c.remaining > 0 && c.pos + c.remaining == |td.input|
    requires DivCeil(Min(c.remaining, td.ChunkSz()), td.segSz) <= c.free
    requires td.externalMbufs ==> c.zone + c.free == zones
    ensures ok && Filled(td, c, c', chain)
    ensures 1 <= |chain.segs| <= td.maxSglSegs
  {
    ghost var n := Min(c.remaining, td.ChunkSz());
    var segs: seq<Seg> := [];
    c', chain := c, Chain(0, []);
    while |segs| == 0 || (|segs| < td.maxSglSegs && c'.remaining > 0)
      invariant |segs| <= td.maxSglSegs && Filling(td, c, c', segs)
      decreases td.maxSglSegs - |segs|
    {
      SegmentNeeded(c.remaining, |segs|, td.maxSglSegs, td.segSz);
      var seg, next;
      ok, seg, next := FillSegment(td, zones, c');
      if !ok {
        return;
      }
      FillingStep(td, c, c', segs, seg, next);
      segs, c' := segs + [seg], next;
    }
    MulLe(|segs|, td.maxSglSegs, td.segSz);
    DivCeilUnique(n, td.segSz, |segs|);
    ok, chain := true, Chain(DataLen(segs), segs);
  }

  /** While the loop goes on, the segments still to come include at least one more. */
  lemma SegmentNeeded(r: nat, u: nat, m: nat, s: nat)
    requires s > 0 && u < m && u * s < r
    ensures u < DivCeil(Min(r, m * s), s)
  {
    assert (u + 1) * s == u * s + s;
    MulLe(u + 1, m, s);
    SegUsed(Min(r, m * s), u, s);
  }

  /**
   * The loop that allocates `count` segments of `room` bytes and appends `len` bytes to each
   * without writing them: the output chains.
   */
  method BlankChain(count: nat, room: nat, len: nat, external: bool, zones: nat, c: Cursor)
    returns (ok: bool, chain: Chain, c': Cursor)
    requires 1 <= count <= c.free
    requires external ==> c.zone + c.free == zones
    ensures ok <==> len <= room
    ensures ok ==> |chain.segs| == count && Uniform(chain.segs, room) && Valid(chain.segs)
    ensures ok ==> forall k :: 0 <= k < count ==> chain.segs[k].dataLen == len
    ensures ok ==> c' == c.(free := c.free - count, zone := c.zone + if external then count else 0)
  {
    var segs: seq<Seg> := [];
    c', chain := c, Chain(0, []);
    while |segs| < count
      invariant |segs| <= count && (|segs| > 0 ==> len <= room)
      invariant Valid(segs) && Uniform(segs, room)
      invariant forall k :: 0 <= k < |segs| ==> segs[k].dataLen == len
      invariant c' == c.(free := c.free - |segs|, zone := c.zone + if external then |segs| else 0)
    {
      if c'.free == 0 {
        return false, chain, c';
      }
      if external {
        assert c'.zone < zones;
        c' := c'.(zone := c'.zone + 1);
      }
      var appended := Append(NewSeg(room), len);
      if appended == None {
        return false, chain, c';
      }
      segs := segs + [appended.value];
      c' := c'.(free := c'.free - 1);
    }
    ok, chain := true, Chain(DataLen(segs), segs);
  }

  /** The parts of the input that the chains are meant to carry. */
  ghost function Chunks(td: TestData): (c: seq<seq<byte>>)
    requires td.Valid()
    ensures |c| == td.TotalBufs()
    ensures forall i :: 0 <= i < |c| ==> c[i] == Chunk(td.input, i, td.ChunkSz())
  {
    seq(td.TotalBufs(), i requires 0 <= i => Chunk(td.input, i, td.ChunkSz()))
  }

  lemma {:induction false} ChunksPrefix(input: seq<byte>, size: nat, chunks: seq<seq<byte>>)
    requires size > 0
    requires forall i :: 0 <= i < |chunks| ==> chunks[i] == Chunk(input, i, size)
    ensures Concat(chunks) == input[..Min(|chunks| * size, |input|)]
  {
    if chunks != [] {
      var i := |chunks| - 1;
      ChunksPrefix(input, size, chunks[..i]);
      MulLe(i, i + 1, size);
      assert input[..Min(i * size, |input|)] + Chunk(input, i, size) == input[..Min((i + 1) * size, |input|)];
    }
  }

  /** The chunks in their order are the input. */
  lemma ChunksAreInput(td: TestData)
    requires td.Valid() && td.testOp != DecompressOnly
    ensures Concat(Chunks(td)) == td.input
  {
    EnoughChains(td);
    ChunksPrefix(td.input, td.ChunkSz(), Chunks(td));
  }

  /** The number of chains suffices for the input, and none of them is empty. */
  lemma EnoughChains(td: TestData)
    requires td.Valid() && td.testOp != DecompressOnly
    ensures td.ChunkSz() > 0
    ensures td.TotalBufs() * td.ChunkSz() >= |td.input|
    ensures td.TotalBufs() * td.maxSglSegs >= td.TotalSegs()
    ensures forall i: nat :: i < td.TotalBufs() ==>
              i * td.ChunkSz() < |td.input| && i * td.maxSglSegs < td.TotalSegs()
  {
    var n, s, m := |td.input|, td.segSz, td.maxSglSegs;
    var t, b := td.TotalSegs(), td.TotalBufs();
    DivCeilCovers(n, s);
    DivCeilCovers(t, m);
    MulAssoc(b, m, s);
    MulLe(t, b * m, s);
    forall i: nat | i < b ensures i * td.ChunkSz() < n && i * m < t {
      SegUsed(t, i, m);
      SegUsed(n, i * m, s);
      MulAssoc(i, m, s);
    }
  }

  /** What chain `i` takes, in segments and in bytes. */
  lemma NextChain(n: nat, i: nat, m: nat, s: nat)
    requires s > 0 && i * (m * s) < n
    ensures var t, r := DivCeil(n, s), n - i * (m * s);
            && i * m <= t
            && DivCeil(Min(r, m * s), s) == Min(m, t - i * m)
            && (i + 1) * m == i * m + m && (i + 1) * (m * s) == i * (m * s) + m * s
  {
    var k := i * m;
    MulAssoc(i, m, s);
    SegUsed(n, k, s);
    SkipSegs(n, k, s);
    ChunkSegs(n - k * s, m, s);
    MulStep(i, m);
    MulStep(i, m * s);
  }

  lemma MulAssoc(a: nat, b: nat, c: nat)
    ensures a * (b * c) == (a * b) * c
  {
  }

  lemma MulStep(a: nat, b: nat)
    ensures (a + 1) * b == a * b + b
  {
  }

  /** An input chain that holds its part of the input. */
  ghost predicate FillsChunk(td: TestData, i: nat, d: Chain)
    requires td.segSz > 0
  {
    && Readable(d) && d.pktLen == DataLen(d.segs) && Payload(d) == Chunk(td.input, i, td.ChunkSz())
    && Uniform(d.segs, td.segSz) && 1 <= |d.segs| <= td.maxSglSegs
    && |d.segs| == DivCeil(|Chunk(td.input, i, td.ChunkSz())|, td.segSz)
  }

  /** An input chain with its part of the input and an output chain of as many segments. */
  ghost predicate PreparedPair(td: TestData, outSegSz: nat, i: nat, d: Chain, c: Chain)
    requires td.segSz > 0
  {
    FillsChunk(td, i, d) && |c.segs| == |d.segs| && Uniform(c.segs, outSegSz) && Full(c.segs)
  }

  /** What of this outlasts a loop over the chains. */
  ghost predicate LoadedPair(td: TestData, outSegSz: nat, i: nat, d: Chain, c: Chain)
    requires td.segSz > 0
  {
    && Readable(d) && Payload(d) == Chunk(td.input, i, td.ChunkSz()) && Uniform(d.segs, td.segSz)
    && 1 <= |d.segs| == |c.segs| == DivCeil(|Chunk(td.input, i, td.ChunkSz())|, td.segSz)
    && Uniform(c.segs, outSegSz)
  }

  ghost predicate LoadedChains(td: TestData, outSegSz: nat, decomp: seq<Chain>, comp: seq<Chain>)
    requires td.Valid()
  {
    && |decomp| == |comp| == td.TotalBufs() && AllReadable(decomp) && Payloads(decomp) == Chunks(td)
    && Sum(SegCounts(decomp)) == td.TotalSegs()
    && forall i :: 0 <= i < |decomp| ==> LoadedPair(td, outSegSz, i, decomp[i], comp[i])
  }

  /** The one input chain of a test that only decompresses. */
  ghost predicate HoldsInput(td: TestData, c: Chain)
  {
    Uniform(c.segs, td.segSz) && Readable(c) && Payload(c) == td.input
  }

  class MemResources {
    const totalBufs: nat
    const outSegSz: nat
    const totalSegs: nat
    /** Bytes a segment of each pool has behind its headroom. */
    const compRoom: nat
    const decompRoom: nat
    const opPool: Mempool
    const compBufs: array<Chain>
    const decompBufs: array<Chain>
    const compressedData: array<byte>
    const decompressedData: array<byte>
    /** Mbufs left in comp_buf_pool and decomp_buf_pool. */
    var compFree: nat
    var decompFree: nat

    ghost predicate Valid(td: TestData)
      requires td.Valid()
    {
      && totalSegs == td.TotalSegs() && totalBufs == td.TotalBufs()
      && outSegSz == BufSize(td.segSz) && td.segSz < outSegSz && outSegSz + HEADROOM <= UINT16_MAX
      && compRoom == (if td.externalMbufs || td.testOp != DecompressOnly then outSegSz else td.segSz)
      && decompRoom == (if td.externalMbufs || td.testOp != DecompressOnly then td.segSz else outSegSz)
      && compBufs != decompBufs && compressedData != decompressedData
      && (var data: set<object> := {compressedData, decompressedData}; compBufs !in data && decompBufs !in data)
      && compBufs.Length == totalBufs && decompBufs.Length == totalBufs
      && opPool.size == 2 * totalBufs
      && outSegSz * totalSegs
           <= (if td.testOp == DecompressOnly then decompressedData.Length else compressedData.Length)
      && |td.input| == (if td.testOp == DecompressOnly then compressedData.Length else decompressedData.Length)
    }

    /** comp_perf_allocate_memory, in a world with enough memory. */
    constructor (td: TestData)
      requires td.Valid()
      ensures Valid(td) && fresh(opPool) && fresh(compBufs) && fresh(decompBufs)
      ensures fresh(compressedData) && fresh(decompressedData)
      ensures multiset(opPool.free) == opPool.Objects()
      ensures compFree == decompFree == totalSegs
    {
      var outSz := FindBufSize(td.segSz);
      outSegSz := outSz;
      var segs := td.TotalSegs();
      totalSegs := segs;
      var outputSz := Max(outSz * segs, MIN_COMPRESSED_BUF_SIZE);
      compRoom := if td.externalMbufs || td.testOp != DecompressOnly then outSz else td.segSz;
      decompRoom := if td.externalMbufs || td.testOp != DecompressOnly then td.segSz else outSz;
      compFree, decompFree := segs, segs;
      var bufs := td.TotalBufs();
      totalBufs := bufs;
      opPool := new Mempool(2 * bufs);
      var compSz := if td.testOp == DecompressOnly then |td.input| else outputSz;
      var decompSz := if td.testOp == DecompressOnly then outputSz else |td.input|;
      compressedData := new byte[compSz](_ => 0);
      decompressedData := new byte[decompSz](_ => 0);
      var none := Chain(0, []);
      compBufs := new Chain[bufs](_ => none);
      decompBufs := new Chain[bufs](_ => none);
    }

    /** The state of the chains after prepare_bufs when the test compresses. */
    ghost predicate PreparedToCompress(td: TestData)
      reads decompBufs, compBufs
      requires td.Valid()
    {
      && decompBufs.Length == compBufs.Length == td.TotalBufs()
      && Sum(SegCounts(decompBufs[..])) == td.TotalSegs()
      && forall i :: 0 <= i < td.TotalBufs() ==>
           PreparedPair(td, outSegSz, i, decompBufs[i], compBufs[i])
    }

    /** The state of the chains after prepare_bufs when the test only decompresses. */
    ghost predicate PreparedToDecompress(td: TestData)
      reads decompBufs, compBufs
    {
      && decompBufs.Length == compBufs.Length == totalBufs == 1
      && |decompBufs[0].segs| == td.maxSglSegs && Uniform(decompBufs[0].segs, outSegSz)
      && HoldsInput(td, compBufs[0])
    }

    /** Between two loops: the chains in front of the compression hold the chunks. */
    ghost predicate Loaded(td: TestData)
      reads decompBufs, compBufs
      requires td.Valid()
    {
      LoadedChains(td, outSegSz, decompBufs[..], compBufs[..])
    }

    lemma PreparedIsLoaded(td: TestData)
      requires td.Valid() && PreparedToCompress(td)
      ensures Loaded(td)
    {
      forall i | 0 <= i < decompBufs.Length ensures LoadedPair(td, outSegSz, i, decompBufs[i], compBufs[i]) {
        assert PreparedPair(td, outSegSz, i, decompBufs[i], compBufs[i]);
      }
      assert Payloads(decompBufs[..]) == Chunks(td);
    }

    /** prepare_bufs. */
    method PrepareBufs(td: TestData) returns (ok: bool)
      requires td.Valid() && Valid(td) && compFree == decompFree == totalSegs
      modifies this`compFree, this`decompFree, compBufs, decompBufs
      ensures ok <==> !(td.testOp == DecompressOnly && td.externalMbufs)
      ensures td.testOp != DecompressOnly ==>
        && PreparedToCompress(td) && compFree == decompFree == 0 && Loaded(td)
        && AllReadable(decompBufs[..]) && Concat(Payloads(decompBufs[..])) == td.input
      ensures ok && td.testOp == DecompressOnly ==>
        && PreparedToDecompress(td) && decompFree == 0
        && |compBufs[0].segs| == totalSegs - compFree == DivCeil(|td.input|, td.segSz)
    {
      if td.testOp == DecompressOnly {
        ok := PrepareChainsToDecompress(td);
      } else {
        PrepareToCompress(td);
        ok := true;
        PreparedIsLoaded(td);
        ChunksAreInput(td);
      }
    }

    /** Where prepare_bufs stands before chain `i`. */
    ghost predicate Preparing(td: TestData, d: Cursor, c: Cursor, i: nat)
      requires td.Valid()
      reads this`compFree, this`decompFree
    {
      && d.pos + d.remaining == |td.input| && d.pos == Min(i * td.ChunkSz(), |td.input|)
      && d.free == decompFree == totalSegs - Min(i * td.maxSglSegs, totalSegs)
      && c.free == compFree == d.free
      && (td.externalMbufs ==> d.zone + d.free == totalSegs && c.zone + c.free == totalSegs)
    }

    method PrepareToCompress(td: TestData)
      requires td.Valid() && Valid(td) && compFree == decompFree == totalSegs
      requires td.testOp != DecompressOnly
      modifies this`compFree, this`decompFree, compBufs, decompBufs
      ensures PreparedToCompress(td) && compFree == decompFree == 0
    {
      hide PreparedPair, TestData.ChunkSz;
      EnoughChains(td);
      var d := Cursor(0, |td.input|, decompFree, 0);
      var c := Cursor(0, |td.input|, compFree, 0);
      var i := 0;
      while i < totalBufs
        modifies this`compFree, this`decompFree, compBufs, decompBufs
        invariant 0 <= i <= totalBufs
        invariant Preparing(td, d, c, i) && PreparedUpTo(td, i)
      {
        d, c := StoreChain(td, i, d, c);
        i := i + 1;
      }
      assert decompBufs[..] == decompBufs[..i];
    }

    ghost predicate PreparedUpTo(td: TestData, n: nat)
      reads this`decompFree, decompBufs, compBufs
      requires n <= decompBufs.Length && n <= compBufs.Length && td.segSz > 0
    {
      && Sum(SegCounts(decompBufs[..n])) == totalSegs - decompFree
      && forall k :: 0 <= k < n ==> PreparedPair(td, outSegSz, k, decompBufs[k], compBufs[k])
    }

    /** One round of prepare_bufs. */
    method StoreChain(td: TestData, i: nat, d: Cursor, c: Cursor) returns (d': Cursor, c': Cursor)
      requires td.Valid() && Valid(td) && td.testOp != DecompressOnly
      requires i < totalBufs && Preparing(td, d, c, i) && PreparedUpTo(td, i)
      modifies this`compFree, this`decompFree, compBufs, decompBufs
      ensures Preparing(td, d', c', i + 1) && PreparedUpTo(td, i + 1)
    {
      hide PreparedPair, TestData.ChunkSz;
      var chain, blank;
      d', c', chain, blank := PrepareChain(td, i, d, c);
      ghost var before := decompBufs[..i];
      decompBufs[i] := chain;
      compBufs[i] := blank;
      assert decompBufs[..i + 1] == before + [chain];
      CountOneMore(before, chain);
      decompFree, compFree := d'.free, c'.free;
    }

    static lemma CountOneMore(bufs: seq<Chain>, chain: Chain)
      ensures Sum(SegCounts(bufs + [chain])) == Sum(SegCounts(bufs)) + |chain.segs|
    {
      assert SegCounts(bufs + [chain]) == SegCounts(bufs) + [|chain.segs|];
      assert (SegCounts(bufs) + [|chain.segs|])[..|bufs|] == SegCounts(bufs);
    }

    /** The two chains of one buffer. */
    method PrepareChain(td: TestData, i: nat, d: Cursor, c: Cursor)
      returns (d': Cursor, c': Cursor, chain: Chain, blank: Chain)
      requires td.Valid() && Valid(td) && td.testOp != DecompressOnly
      requires i < totalBufs && Preparing(td, d, c, i)
      ensures PreparedPair(td, outSegSz, i, chain, blank)
      ensures d'.pos + d'.remaining == |td.input| && d'.pos == Min((i + 1) * td.ChunkSz(), |td.input|)
      ensures d'.free == c'.free == totalSegs - Min((i + 1) * td.maxSglSegs, totalSegs)
      ensures d'.free == d.free - |chain.segs|
      ensures td.externalMbufs ==> d'.zone + d'.free == totalSegs && c'.zone + c'.free == totalSegs
    {
      ghost var m, s := td.maxSglSegs, td.segSz;
      EnoughChains(td);
      NextChain(|td.input|, i, m, s);
      var ok;
      ok, chain, d' := FillChain(td, totalSegs, d);
      ok, blank, c' := BlankChain(|chain.segs|, compRoom, outSegSz, td.externalMbufs, totalSegs, c);
      DataLength(chain.segs);
      assert Payload(chain) == Data(chain.segs);
    }

    method PrepareChainsToDecompress(td: TestData) returns (ok: bool)
      requires td.Valid() && Valid(td) && compFree == decompFree == totalSegs
      requires td.testOp == DecompressOnly
      modifies this`compFree, this`decompFree, compBufs, decompBufs
      ensures ok <==> !td.externalMbufs
      ensures ok ==>
        && PreparedToDecompress(td) && decompFree == 0
        && |compBufs[0].segs| == totalSegs - compFree == DivCeil(|td.input|, td.segSz)
    {
      DecompressOnlySizes(td);
      var chain, d;
      ok, chain, d := BlankChain(td.maxSglSegs, decompRoom, outSegSz, td.externalMbufs, totalSegs,
                                 Cursor(0, |td.input|, decompFree, 0));
      if !ok {
        return;
      }
      decompBufs[0] := chain;
      decompFree := d.free;
      ghost var start := Cursor(0, |td.input|, compFree, 0);
      var comp, c;
      ok, comp, c := FillChain(td, totalSegs, Cursor(0, |td.input|, compFree, 0));
      WholeInput(td, start, c, comp);
      compBufs[0] := comp;
      compFree := c.free;
    }
  }

  lemma DecompressOnlySizes(td: TestData)
    requires td.Valid() && td.testOp == DecompressOnly
    ensures td.TotalSegs() == td.maxSglSegs && td.TotalBufs() == 1
    ensures Min(|td.input|, td.ChunkSz()) == |td.input|
    ensures 1 <= DivCeil(|td.input|, td.segSz) <= td.maxSglSegs
  {
    DivCeilUnique(td.maxSglSegs, td.maxSglSegs, 1);
    ChunkSegs(|td.input|, td.maxSglSegs, td.segSz);
    DivCeilCovers(|td.input|, td.segSz);
  }

  /** The one chain of a test that only decompresses holds all of the input. */
  lemma WholeInput(td: TestData, start: Cursor, end: Cursor, chain: Chain)
    requires td.Valid() && td.testOp == DecompressOnly
    requires start.pos == 0 && start.remaining == |td.input| && Filled(td, start, end, chain)
    ensures Readable(chain) && Payload(chain) == td.input
    ensures Uniform(chain.segs, td.segSz)
    ensures |chain.segs| == start.free - end.free == DivCeil(|td.input|, td.segSz)
  {
    DecompressOnlySizes(td);
    DataLength(chain.segs);
    assert td.input[0..|td.input|] == td.input;
  }
}
